// A consistent-hash ring, kept as a list of nodes in the order of their hashes.
module ConHashes {
  import opened Options
  import opened Ordering

  datatype Node<N> = Node(data: N, hash: int)

  function ByHash<N>(a: Node<N>, b: Node<N>): int { a.hash - b.hash }

  ghost predicate Ring<N>(list: seq<Node<N>>) { Ascending(ByHash, list) }

  lemma HashOrder<N(!new)>()
    ensures IsComparator<Node<N>>(ByHash)
  {
  }

  // The node on which a hash falls: the least that is not below it, or else the
  // least of all.
  ghost predicate Owns<N>(list: seq<Node<N>>, v: int, n: Node<N>) {
    && n in list
    && if exists m :: m in list && m.hash >= v
       then n.hash >= v && forall m :: m in list && m.hash >= v ==> n.hash <= m.hash
       else forall m :: m in list ==> n.hash <= m.hash
  }

  // It is unique, as no two nodes have the same hash.
  lemma OwnerIsUnique<N>(list: seq<Node<N>>, v: int, n: Node<N>, n': Node<N>)
    requires Ring(list) && Owns(list, v, n) && Owns(list, v, n')
    ensures n == n'
  {
    var i :| 0 <= i < |list| && list[i] == n;
    var j :| 0 <= j < |list| && list[j] == n';
    assert n.hash <= n'.hash && n'.hash <= n.hash;
    HashesDiffer(list, i, j);
  }

  lemma HashesDiffer<N>(list: seq<Node<N>>, i: int, j: int)
    requires Ring(list) && 0 <= i < |list| && 0 <= j < |list|
    ensures list[i].hash < list[j].hash <==> i < j
    ensures list[i].hash == list[j].hash <==> i == j
  {
    if i < j {
      assert ByHash(list[i], list[j]) < 0;
    } else if j < i {
      assert ByHash(list[j], list[i]) < 0;
    }
  }

  // One ring is the other and a new node.
  ghost predicate Extends<N(!new)>(list: seq<Node<N>>, list': seq<Node<N>>, n: Node<N>) {
    && (forall m :: m in list' <==> m in list || m == n)
    && forall m :: m in list ==> m.hash != n.hash
  }

  // A new node only draws keys to itself, and a key that stays where it was would
  // not have moved to it: the keys it owned are the only ones that go elsewhere
  // when it leaves.
  lemma OnlyOwnKeysMove<N(!new)>(list: seq<Node<N>>, list': seq<Node<N>>, n: Node<N>, v: int, o: Node<N>, o': Node<N>)
    requires Extends(list, list', n) && Owns(list, v, o) && Owns(list', v, o') && Ring(list) && Ring(list')
    ensures o' == n || o' == o
    ensures o' != n <==> Owns(list', v, o)
  {
    assert o in list' && (o' != n ==> o' in list);
    if o' != n {
      if exists m :: m in list && m.hash >= v {
        var m :| m in list && m.hash >= v;
        assert m in list';
        assert Owns(list, v, o');
      } else {
        assert Owns(list, v, o');
      }
      OwnerIsUnique(list, v, o, o');
    } else if Owns(list', v, o) {
      OwnerIsUnique(list', v, o, o');
    }
  }

  class ConHash<N(!new), K> {
    var list: seq<Node<N>>
    const keyHash: K -> int
    const nodeHash: N -> int

    ghost predicate Valid()
      reads this
    {
      Ring(list)
    }

    constructor (keyHash: K -> int, nodeHash: N -> int)
      ensures Valid() && list == [] && this.keyHash == keyHash && this.nodeHash == nodeHash
    {
      list := [];
      this.keyHash, this.nodeHash := keyHash, nodeHash;
    }

    // -1 if there is a node with the same hash already.
    method Add(data: N) returns (ret: int)
      requires Valid()
      modifies this`list
      ensures Valid() && list == Added(ByHash, old(list), Node(data, nodeHash(data)))
      ensures ret == if Contains(ByHash, old(list), Node(data, nodeHash(data))) then -1 else 0
      ensures ret == 0 ==> Extends(old(list), list, Node(data, nodeHash(data)))
    {
      HashOrder<N>();
      var n := Node(data, nodeHash(data));
      AddedAscends(ByHash, list, n);
      HitsIffContains(ByHash, list, n);
      for i := 0 to |list|
        invariant list == old(list) && forall j :: 0 <= j < i ==> list[j].hash < n.hash
      {
        if list[i].hash == n.hash {
          HashPlace(list, n, i);
          return -1;
        } else if list[i].hash > n.hash {
          HashPlace(list, n, i);
          ExtendsAt(list, n, i);
          list := list[..i] + [n] + list[i..];
          return 0;
        }
      }
      HashPlace(list, n, |list|);
      ExtendsAt(list, n, |list|);
      assert list[..|list|] + [n] + list[|list|..] == list + [n];
      list := list + [n];
      return 0;
    }

    // The node with the same hash goes, if there is one.
    method Erase(data: N)
      requires Valid()
      modifies this`list
      ensures Valid() && list == Removed(ByHash, old(list), Node(data, nodeHash(data)))
      ensures Contains(ByHash, old(list), Node(data, nodeHash(data))) ==>
                exists n :: n in old(list) && n.hash == nodeHash(data) && Extends(list, old(list), n)
    {
      HashOrder<N>();
      var n := Node(data, nodeHash(data));
      for i := 0 to |list|
        invariant list == old(list) && forall j :: 0 <= j < i ==> list[j].hash != n.hash
      {
        if list[i].hash == n.hash {
          ErasedAt(list, n, i);
          list := list[..i] + list[i + 1..];
          return;
        }
      }
      HitsIffContains(ByHash, list, n);
      assert !Contains(ByHash, list, n);
    }

    // The node that the key falls on, if there is any node.
    method FindNode(key: K) returns (found: Option<N>)
      requires Valid()
      ensures found.None? <==> list == []
      ensures found.Some? ==> exists n :: Owns(list, keyHash(key), n) && n.data == found.value
    {
      if list == [] {
        return None;
      }
      var v := keyHash(key);
      for i := 0 to |list|
        invariant forall j :: 0 <= j < i ==> list[j].hash < v
      {
        if list[i].hash >= v {
          FirstOwns(list, v, i);
          return Some(list[i].data);
        }
      }
      FirstOwns(list, v, 0);
      return Some(list[0].data);
    }
  }

  lemma FirstOwns<N>(list: seq<Node<N>>, v: int, i: int)
    requires Ring(list) && 0 <= i < |list|
    requires if list[i].hash >= v then forall j :: 0 <= j < i ==> list[j].hash < v
             else i == 0 && forall j :: 0 <= j < |list| ==> list[j].hash < v
    ensures Owns(list, v, list[i])
  {
    forall m | m in list && (list[i].hash >= v ==> m.hash >= v)
      ensures list[i].hash <= m.hash
    {
      var j :| 0 <= j < |list| && list[j] == m;
      HashesDiffer(list, i, j);
    }
  }

  lemma ExtendsAt<N(!new)>(list: seq<Node<N>>, n: Node<N>, i: int)
    requires 0 <= i <= |list| && forall j :: 0 <= j < |list| ==> list[j].hash != n.hash
    ensures Extends(list, list[..i] + [n] + list[i..], n)
  {
    var list' := list[..i] + [n] + list[i..];
    forall m | m in list
      ensures m in list'
    {
      var j :| 0 <= j < |list| && list[j] == m;
      assert list'[if j < i then j else j + 1] == m;
    }
    assert list'[i] == n;
  }

  // The place of a hash in the list.
  lemma HashPlace<N(!new)>(list: seq<Node<N>>, n: Node<N>, i: int)
    requires Ring(list) && 0 <= i <= |list|
    requires i < |list| ==> n.hash <= list[i].hash
    requires (i < |list| && list[i].hash == n.hash) || forall j :: 0 <= j < i ==> list[j].hash < n.hash
    ensures PlaceOf(ByHash, list, n) == i
    ensures forall j :: 0 <= j < |list| && j != i ==> list[j].hash != n.hash
  {
    HashOrder<N>();
    forall j | 0 <= j < |list|
      ensures j < i ==> ByHash(n, list[j]) > 0
      ensures j > i ==> ByHash(n, list[j]) < 0
    {
      if i < |list| { HashesDiffer(list, i, j); }
    }
    PlaceIsUnique(ByHash, list, n, i);
  }

  lemma RemovesAt<N(!new)>(list: seq<Node<N>>, i: int)
    requires Ring(list) && 0 <= i < |list|
    ensures Extends(list[..i] + list[i + 1..], list, list[i])
  {
    var less := list[..i] + list[i + 1..];
    assert less[..i] + [list[i]] + less[i..] == list;
    forall j | 0 <= j < |less|
      ensures less[j].hash != list[i].hash
    {
      HashesDiffer(list, i, if j < i then j else j + 1);
    }
    ExtendsAt(less, list[i], i);
  }

  lemma ErasedAt<N(!new)>(list: seq<Node<N>>, n: Node<N>, i: int)
    requires Ring(list) && 0 <= i < |list| && list[i].hash == n.hash
    ensures Removed(ByHash, list, n) == list[..i] + list[i + 1..] && Ring(list[..i] + list[i + 1..])
    ensures Extends(list[..i] + list[i + 1..], list, list[i])
  {
    HashOrder<N>();
    HashPlace(list, n, i);
    RemovedAscends(ByHash, list, n);
    RemovesAt(list, i);
  }
}
