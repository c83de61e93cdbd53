/** Lists of numbered items in ascending order, as gencat keeps its sets and messages. */
module CatalogLists {
  import opened Basics

  datatype Numbered<+T> = Numbered(id: int, item: T)

  function Inserted<A>(s: seq<A>, j: nat, x: A): (r: seq<A>)
    requires j <= |s|
    ensures |r| == |s| + 1 && r[j] == x
    ensures forall k {:trigger r[k]} :: 0 <= k < j ==> r[k] == s[k]
    ensures forall k {:trigger r[k]} :: j < k < |r| ==> r[k] == s[k - 1]
  {
    s[..j] + [x] + s[j..]
  }

  lemma InsertedSet<A>(s: seq<A>, j: nat, x: A)
    requires j <= |s|
    ensures (set y | y in Inserted(s, j, x)) == (set y | y in s) + {x}
  {
    assert s == s[..j] + s[j..];
  }

  lemma InsertedLast<A>(s: seq<A>, x: A)
    ensures Inserted(s, |s|, x) == s + [x]
  {
  }

  ghost predicate Ascending<T>(s: seq<Numbered<T>>) {
    forall i, j :: 0 <= i < j < |s| ==> s[i].id < s[j].id
  }

  function Find<T>(s: seq<Numbered<T>>, id: int): Option<T> {
    if s == [] then None else if s[0].id == id then Some(s[0].item) else Find(s[1..], id)
  }

  /** An item takes the place of the one with its number, or goes before the first with a larger one. */
  function Put<T>(s: seq<Numbered<T>>, n: Numbered<T>): seq<Numbered<T>> {
    if s == [] || s[0].id > n.id then [n] + s
    else if s[0].id == n.id then [n] + s[1..]
    else [s[0]] + Put(s[1..], n)
  }

  function Drop<T>(s: seq<Numbered<T>>, id: int): seq<Numbered<T>> {
    if s == [] || s[0].id > id then s
    else if s[0].id == id then s[1..]
    else [s[0]] + Drop(s[1..], id)
  }

  lemma {:induction false} PutAbove<T>(s: seq<Numbered<T>>, n: Numbered<T>, low: int)
    requires low < n.id && forall m <- s :: low < m.id
    ensures forall m <- Put(s, n) :: low < m.id
  {
    if s != [] && s[0].id < n.id {
      assert forall m <- s[1..] :: m in s;
      PutAbove(s[1..], n, low);
      assert s[0] in s;
    }
  }

  lemma {:induction false} DropAbove<T>(s: seq<Numbered<T>>, id: int, low: int)
    requires forall m <- s :: low < m.id
    ensures forall m <- Drop(s, id) :: low < m.id
  {
    if s != [] && s[0].id < id {
      assert forall m <- s[1..] :: m in s;
      DropAbove(s[1..], id, low);
      assert s[0] in s;
    }
  }

  lemma {:induction false} PutAscends<T>(s: seq<Numbered<T>>, n: Numbered<T>)
    requires Ascending(s)
    ensures Ascending(Put(s, n))
  {
    if s != [] && s[0].id < n.id {
      PutAscends(s[1..], n);
      PutAbove(s[1..], n, s[0].id);
    }
  }

  lemma {:induction false} DropAscends<T>(s: seq<Numbered<T>>, id: int)
    requires Ascending(s)
    ensures Ascending(Drop(s, id))
  {
    if s != [] && s[0].id < id {
      DropAscends(s[1..], id);
      DropAbove(s[1..], id, s[0].id);
    }
  }

  lemma {:induction false} FoundIn<T>(s: seq<Numbered<T>>, id: int)
    ensures Find(s, id).Some? <==> exists m <- s :: m.id == id
  {
    if s != [] {
      FoundIn(s[1..], id);
      assert s == [s[0]] + s[1..];
    }
  }

  /** Putting changes what is found under one number. */
  lemma {:induction false} FindPut<T>(s: seq<Numbered<T>>, n: Numbered<T>, id: int)
    ensures Find(Put(s, n), id) == if id == n.id then Some(n.item) else Find(s, id)
  {
    if s != [] && s[0].id < n.id {
      FindPut(s[1..], n, id);
    }
  }

  /** Dropping removes what is found under one number. */
  lemma {:induction false} FindDrop<T>(s: seq<Numbered<T>>, gone: int, id: int)
    requires Ascending(s)
    ensures Find(Drop(s, gone), id) == if id == gone then None else Find(s, id)
  {
    FoundIn(s, gone);
    if s != [] {
      FoundIn(s[1..], gone);
      if s[0].id < gone {
        FindDrop(s[1..], gone, id);
      }
    }
  }

  /** An ascending list is determined by what is found in it. */
  lemma {:induction false} FoundAlike<T>(s: seq<Numbered<T>>, t: seq<Numbered<T>>)
    requires Ascending(s) && Ascending(t) && forall id :: Find(s, id) == Find(t, id)
    ensures s == t
    decreases |s|
  {
    if s != [] {
      FoundIn(t, s[0].id);
    }
    if t != [] {
      FoundIn(s, t[0].id);
    }
    if s != [] {
      assert Find(s, s[0].id) == Find(t, s[0].id) && Find(s, t[0].id) == Find(t, t[0].id);
      assert s[0] == t[0];
      forall id ensures Find(s[1..], id) == Find(t[1..], id) {
        FoundIn(s[1..], s[0].id);
        FoundIn(t[1..], s[0].id);
        assert Find(s, id) == Find(t, id);
      }
      FoundAlike(s[1..], t[1..]);
    }
  }

  /** The first position whose number is not smaller. */
  ghost predicate Belongs<T>(s: seq<Numbered<T>>, id: int, i: nat) {
    i <= |s| && (forall j :: 0 <= j < i ==> s[j].id < id) && (i < |s| ==> s[i].id >= id)
  }

  /** Places depend on the numbers alone. */
  lemma BelongsAlike<A, B>(a: seq<Numbered<A>>, b: seq<Numbered<B>>, id: int, i: nat)
    requires |a| == |b| && (forall k :: 0 <= k < |a| ==> a[k].id == b[k].id) && Belongs(a, id, i)
    ensures Belongs(b, id, i)
  {
  }

  lemma InsertedStep<A>(s: seq<A>, i: nat, x: A)
    requires 0 < i <= |s|
    ensures Inserted(s, i, x) == [s[0]] + Inserted(s[1..], i - 1, x)
  {
  }

  lemma {:induction false} PutAt<T>(s: seq<Numbered<T>>, n: Numbered<T>, i: nat)
    requires Belongs(s, n.id, i)
    ensures Put(s, n) == if i < |s| && s[i].id == n.id then s[i := n] else Inserted(s, i, n)
    decreases i
  {
    if i == 0 {
      assert Inserted(s, 0, n) == [n] + s;
    } else {
      hide Inserted;
      PutAt(s[1..], n, i - 1);
      if i < |s| && s[i].id == n.id {
        assert s[i := n] == [s[0]] + s[1..][i - 1 := n];
      } else {
        InsertedStep(s, i, n);
      }
    }
  }

  lemma WithoutStep<A>(s: seq<A>, i: nat)
    requires 0 < i < |s|
    ensures Without(s, i) == [s[0]] + Without(s[1..], i - 1)
  {
  }

  lemma {:induction false} DropAt<T>(s: seq<Numbered<T>>, id: int, i: nat)
    requires Belongs(s, id, i)
    ensures Drop(s, id) == if i < |s| && s[i].id == id then Without(s, i) else s
    decreases i
  {
    if i == 0 {
      if s != [] {
        assert Without(s, 0) == s[1..];
      }
    } else {
      hide Without;
      DropAt(s[1..], id, i - 1);
      if i < |s| && s[i].id == id {
        WithoutStep(s, i);
      } else {
        assert s == [s[0]] + s[1..];
      }
    }
  }

  lemma {:induction false} FindAt<T>(s: seq<Numbered<T>>, id: int, i: nat)
    requires Belongs(s, id, i) && Ascending(s)
    ensures Find(s, id) == if i < |s| && s[i].id == id then Some(s[i].item) else None
    decreases i
  {
    if i > 0 {
      FindAt(s[1..], id, i - 1);
    } else {
      FoundIn(s, id);
    }
  }
}
