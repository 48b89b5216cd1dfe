// A fixed-size table from ids to values, by linear probing without removals.
module IdTables {
  import opened Options

  const INVALID := -1

  datatype Node<V> = Node(id: int, ptr: Option<V>)

  function Home(id: int, n: int): (h: int)
    requires id >= 0 && n > 0
    ensures 0 <= h < n
  {
    id % n
  }

  // The slot k steps behind h, around the end of the table.
  function Step(h: int, k: int, n: int): (i: int)
    requires 0 <= h < n && 0 <= k < n
    ensures 0 <= i < n
  {
    if h + k < n then h + k else h + k - n
  }

  // The steps from h to slot i.
  function Distance(h: int, i: int, n: int): (k: int)
    requires 0 <= h < n && 0 <= i < n
    ensures 0 <= k < n && Step(h, k, n) == i
  {
    if h <= i then i - h else i - h + n
  }

  ghost predicate Used<V>(t: seq<Node<V>>, i: int)
    requires 0 <= i < |t|
  {
    t[i].id != INVALID
  }

  // An entry has no gap between its home and itself.
  ghost predicate SlotOk<V>(t: seq<Node<V>>, i: int)
    requires 0 <= i < |t|
  {
    Used(t, i) ==>
      && t[i].id >= 0 && t[i].ptr.Some?
      && var h := Home(t[i].id, |t|); forall k :: 0 <= k < Distance(h, i, |t|) ==> Used(t, Step(h, k, |t|))
  }

  ghost predicate TableOk<V>(t: seq<Node<V>>) {
    |t| > 0 && forall i {:trigger SlotOk(t, i)} :: 0 <= i < |t| ==> SlotOk(t, i)
  }

  // No id has two entries.
  ghost predicate Unique<V>(t: seq<Node<V>>) {
    forall i, j :: 0 <= i < j < |t| && Used(t, i) && Used(t, j) ==> t[i].id != t[j].id
  }

  ghost predicate IdAt<V>(t: seq<Node<V>>, id: int, i: int) {
    0 <= i < |t| && Used(t, i) && t[i].id == id
  }

  // The entry of an id that is the first behind its home, from k steps on.
  ghost function Look<V>(t: seq<Node<V>>, id: int, k: int): Option<V>
    requires |t| > 0 && id >= 0 && 0 <= k <= |t|
    decreases |t| - k
  {
    if k == |t| then None
    else if t[Step(Home(id, |t|), k, |t|)].id == id then t[Step(Home(id, |t|), k, |t|)].ptr
    else Look(t, id, k + 1)
  }

  ghost function IdsTo<V>(t: seq<Node<V>>, n: int): (r: set<int>)
    requires 0 <= n <= |t|
    ensures forall id :: id in r <==> exists i :: i < n && IdAt(t, id, i)
  {
    if n == 0 then {}
    else if Used(t, n - 1) then
      assert IdAt(t, t[n - 1].id, n - 1);
      IdsTo(t, n - 1) + {t[n - 1].id}
    else IdsTo(t, n - 1)
  }

  // What the table maps ids to.
  ghost function Map<V>(t: seq<Node<V>>): map<int, V>
    requires |t| > 0
  {
    map id | id in IdsTo(t, |t|) && id >= 0 && Look(t, id, 0).Some? :: Look(t, id, 0).value
  }

  // The slots that are taken.
  ghost function CountTo<V>(t: seq<Node<V>>, n: int): (c: int)
    requires 0 <= n <= |t|
    ensures 0 <= c <= n
  {
    if n == 0 then 0 else CountTo(t, n - 1) + if Used(t, n - 1) then 1 else 0
  }

  ghost function Count<V>(t: seq<Node<V>>): int { CountTo(t, |t|) }

  ghost predicate FirstAt<V>(t: seq<Node<V>>, id: int, d: int) {
    && id >= 0 && 0 <= d < |t| && t[Step(Home(id, |t|), d, |t|)].id == id
    && forall j :: 0 <= j < d ==> t[Step(Home(id, |t|), j, |t|)].id != id
  }

  lemma {:induction false} LookFirst<V>(t: seq<Node<V>>, id: int, k: int, d: int)
    requires FirstAt(t, id, d) && 0 <= k <= d
    ensures Look(t, id, k) == t[Step(Home(id, |t|), d, |t|)].ptr
    decreases d - k
  {
    if k < d { LookFirst(t, id, k + 1, d); }
  }

  // The table maps an id to what its first entry holds.
  lemma MapAt<V>(t: seq<Node<V>>, id: int, d: int)
    requires TableOk(t) && FirstAt(t, id, d)
    ensures id in Map(t) && t[Step(Home(id, |t|), d, |t|)].ptr == Some(Map(t)[id])
  {
    LookFirst(t, id, 0, d);
    var i := Step(Home(id, |t|), d, |t|);
    assert SlotOk(t, i) && IdAt(t, id, i);
  }

  // Every id in the table has a first entry.
  lemma FirstOf<V>(t: seq<Node<V>>, id: int) returns (d: int)
    requires TableOk(t) && id in IdsTo(t, |t|)
    ensures FirstAt(t, id, d)
  {
    var i :| i < |t| && IdAt(t, id, i);
    assert SlotOk(t, i);
    var h := Home(id, |t|);
    d := 0;
    while t[Step(h, d, |t|)].id != id
      invariant 0 <= d <= Distance(h, i, |t|)
      invariant forall j :: 0 <= j < d ==> t[Step(h, j, |t|)].id != id
      decreases Distance(h, i, |t|) - d
    {
      d := d + 1;
    }
  }

  // The next slot, as the probing loop computes it.
  lemma Wrap(i: int, n: int)
    requires 0 <= i < n
    ensures (i + 1) % n == if i + 1 < n then i + 1 else 0
  {
    if i + 1 < n { Small(i + 1, n); }
  }

  lemma Small(x: int, n: int)
    requires 0 <= x < n
    ensures x % n == x
  {
  }

  lemma NextStep(h: int, k: int, n: int)
    requires 0 <= h < n && 0 <= k < n
    ensures (Step(h, k, n) + 1) % n == if k + 1 < n then Step(h, k + 1, n) else h
    ensures k + 1 < n ==> Step(h, k + 1, n) != h
  {
    Wrap(Step(h, k, n), n);
  }

  // An id that is in the table is found before the first free slot.
  lemma NotBefore<V>(t: seq<Node<V>>, id: int, k: int, i: int)
    requires TableOk(t) && id >= 0 && 0 <= k <= |t| && (k < |t| ==> !Used(t, Step(Home(id, |t|), k, |t|)))
    requires IdAt(t, id, i)
    ensures var d := Distance(Home(id, |t|), i, |t|); d < k && t[Step(Home(id, |t|), d, |t|)].id == id
  {
    assert SlotOk(t, i);
  }

  lemma NotPassed<V>(t: seq<Node<V>>, id: int, k: int)
    requires TableOk(t) && id >= 0 && 0 <= k <= |t| && (k < |t| ==> !Used(t, Step(Home(id, |t|), k, |t|)))
    requires forall j :: 0 <= j < k ==> t[Step(Home(id, |t|), j, |t|)].id != id
    ensures id !in IdsTo(t, |t|)
  {
    forall i
      ensures !IdAt(t, id, i)
    {
      if IdAt(t, id, i) { NotBefore(t, id, k, i); }
    }
  }

  lemma {:induction false} NoneTo<V>(t: seq<Node<V>>, n: int)
    requires 0 <= n <= |t| && forall i :: 0 <= i < n ==> !Used(t, i)
    ensures CountTo(t, n) == 0 && IdsTo(t, n) == {}
  {
    if n > 0 { NoneTo(t, n - 1); }
  }

  // A table without a free slot.
  lemma {:induction false} FullTo<V>(t: seq<Node<V>>, n: int)
    requires 0 <= n <= |t| && forall i :: 0 <= i < n ==> Used(t, i)
    ensures CountTo(t, n) == n
  {
    if n > 0 { FullTo(t, n - 1); }
  }

  lemma {:induction false} FreeTo<V>(t: seq<Node<V>>, n: int, i: int)
    requires 0 <= i < n <= |t| && !Used(t, i)
    ensures CountTo(t, n) < n
  {
    if i < n - 1 { FreeTo(t, n - 1, i); }
  }

  lemma {:induction false} AddedCount<V>(t: seq<Node<V>>, x: Node<V>, n: int, i: int)
    requires 0 <= n <= |t| && 0 <= i < |t| && !Used(t, i) && x.id != INVALID
    ensures CountTo(t[i := x], n) == CountTo(t, n) + if i < n then 1 else 0
  {
    if n > 0 { AddedCount(t, x, n - 1, i); }
  }

  // Without double entries there are as many slots taken as ids in the table.
  lemma {:induction false} UniqueCount<V>(t: seq<Node<V>>, n: int)
    requires Unique(t) && 0 <= n <= |t|
    ensures CountTo(t, n) == |IdsTo(t, n)|
  {
    if n > 0 {
      UniqueCount(t, n - 1);
      if Used(t, n - 1) {
        assert t[n - 1].id !in IdsTo(t, n - 1);
      }
    }
  }

  lemma MapKeys<V>(t: seq<Node<V>>, id: int)
    requires TableOk(t)
    ensures id in Map(t) <==> id in IdsTo(t, |t|)
  {
    if id in IdsTo(t, |t|) {
      var d := FirstOf(t, id);
      MapAt(t, id, d);
    }
  }

  lemma CountIsSize<V>(t: seq<Node<V>>)
    requires TableOk(t) && Unique(t)
    ensures Count(t) == |Map(t)|
  {
    UniqueCount(t, |t|);
    forall id
      ensures id in Map(t).Keys <==> id in IdsTo(t, |t|)
    {
      MapKeys(t, id);
    }
    assert Map(t).Keys == IdsTo(t, |t|);
    assert |Map(t)| == |Map(t).Keys|;
  }

  // The first free slot behind the home of an id.
  ghost predicate FreeAt<V>(t: seq<Node<V>>, id: int, k: int) {
    && TableOk(t) && id >= 0 && 0 <= k < |t| && !Used(t, Step(Home(id, |t|), k, |t|))
    && forall j :: 0 <= j < k ==> Used(t, Step(Home(id, |t|), j, |t|))
  }

  ghost function WithEntry<V>(t: seq<Node<V>>, id: int, ptr: V, k: int): seq<Node<V>>
    requires id >= 0 && 0 <= k < |t|
  {
    t[Step(Home(id, |t|), k, |t|) := Node(id, Some(ptr))]
  }

  lemma AddedSlots<V>(t: seq<Node<V>>, id: int, ptr: V, k: int)
    requires FreeAt(t, id, k)
    ensures TableOk(WithEntry(t, id, ptr, k))
  {
    var i, t' := Step(Home(id, |t|), k, |t|), WithEntry(t, id, ptr, k);
    assert Distance(Home(id, |t|), i, |t|) == k;
    forall j | 0 <= j < |t'|
      ensures SlotOk(t', j)
    {
      assert SlotOk(t, j);
    }
  }

  // A first entry stays the first: a new one for the same id comes behind it.
  lemma FirstStays<V>(t: seq<Node<V>>, id: int, ptr: V, k: int, key: int, d: int)
    requires FreeAt(t, id, k) && FirstAt(t, key, d)
    ensures FirstAt(WithEntry(t, id, ptr, k), key, d)
    ensures WithEntry(t, id, ptr, k)[Step(Home(key, |t|), d, |t|)] == t[Step(Home(key, |t|), d, |t|)]
  {
    if key == id {
      NotBefore(t, id, k, Step(Home(id, |t|), d, |t|));
    }
  }

  // What is mapped afterwards: an id that was there already keeps its meaning.
  lemma AddedAt<V>(t: seq<Node<V>>, id: int, ptr: V, k: int, key: int)
    requires FreeAt(t, id, k)
    ensures var t' := WithEntry(t, id, ptr, k); var was := Map(t);
            && (key in Map(t') <==> key in was || key == id)
            && (key in Map(t') ==> Map(t')[key] == if key in was then was[key] else ptr)
  {
    var i, t' := Step(Home(id, |t|), k, |t|), WithEntry(t, id, ptr, k);
    AddedSlots(t, id, ptr, k);
    MapKeys(t, key);
    MapKeys(t', key);
    if key in Map(t) {
      var d := FirstOf(t, key);
      FirstStays(t, id, ptr, k, key, d);
      MapAt(t, key, d);
      MapAt(t', key, d);
    } else if key == id {
      forall j | 0 <= j < k
        ensures t'[Step(Home(id, |t|), j, |t|)].id != id
      {
        assert !IdAt(t, id, Step(Home(id, |t|), j, |t|));
      }
      assert FirstAt(t', id, k);
      MapAt(t', id, k);
    } else if key in Map(t') {
      var j :| j < |t'| && IdAt(t', key, j);
      assert IdAt(t, key, j);
    }
  }

  lemma AddedMap<V>(t: seq<Node<V>>, id: int, ptr: V, k: int)
    requires FreeAt(t, id, k)
    ensures Map(WithEntry(t, id, ptr, k)) == if id in Map(t) then Map(t) else Map(t)[id := ptr]
  {
    var m', m := Map(WithEntry(t, id, ptr, k)), if id in Map(t) then Map(t) else Map(t)[id := ptr];
    forall key
      ensures key in m' <==> key in m
      ensures key in m' ==> m'[key] == m[key]
    {
      AddedAt(t, id, ptr, k, key);
    }
    assert m' == m;
  }

  lemma AddedUnique<V>(t: seq<Node<V>>, id: int, ptr: V, k: int)
    requires FreeAt(t, id, k) && Unique(t) && id !in Map(t)
    ensures Unique(WithEntry(t, id, ptr, k))
  {
    var t' := WithEntry(t, id, ptr, k);
    MapKeys(t, id);
    forall a, b | 0 <= a < b < |t'| && Used(t', a) && Used(t', b)
      ensures t'[a].id != t'[b].id
    {
      assert !IdAt(t, id, a) && !IdAt(t, id, b);
    }
  }

  lemma AddedOk<V>(t: seq<Node<V>>, id: int, ptr: V, k: int)
    requires FreeAt(t, id, k)
    ensures var t' := WithEntry(t, id, ptr, k);
            && TableOk(t') && Count(t') == Count(t) + 1
            && Map(t') == (if id in Map(t) then Map(t) else Map(t)[id := ptr])
            && (Unique(t) && id !in Map(t) ==> Unique(t'))
  {
    AddedSlots(t, id, ptr, k);
    AddedCount(t, Node(id, Some(ptr)), |t|, Step(Home(id, |t|), k, |t|));
    AddedMap(t, id, ptr, k);
    if Unique(t) && id !in Map(t) { AddedUnique(t, id, ptr, k); }
  }

  class IdTable<V> {
    const table: array<Node<V>>

    ghost predicate Valid()
      reads table
    {
      TableOk(table[..])
    }

    ghost function M(): map<int, V>
      requires Valid()
      reads table
    {
      Map(table[..])
    }

    constructor (maxCount: int)
      requires maxCount > 0
      ensures Valid() && M() == map[] && Count(table[..]) == 0 && Unique(table[..])
      ensures fresh(table) && table.Length == maxCount
    {
      table := new Node<V>[maxCount](_ => Node(INVALID, None));
      new;
      NoneTo(table[..], table.Length);
    }

    // 0 if the entry was made, -1 if the arguments are no good or every slot is
    // taken. A second entry for an id takes a slot but is never found.
    method Add(id: int, ptr: Option<V>) returns (ret: int)
      requires Valid()
      modifies table
      ensures Valid() && (ret == 0 || ret == -1)
      ensures ret == 0 <==> id >= 0 && ptr.Some? && old(Count(table[..])) < table.Length
      ensures ret == 0 ==> Count(table[..]) == old(Count(table[..])) + 1
      ensures ret == 0 ==> M() == if id in old(M()) then old(M()) else old(M())[id := ptr.value]
      ensures old(Unique(table[..])) && id !in old(M()) ==> Unique(table[..])
      ensures ret == -1 ==> table[..] == old(table[..])
    {
      if id < 0 || ptr.None? {
        return -1;
      }
      ghost var t := table[..];
      var n := table.Length;
      var index := Home(id, n);
      var i := index;
      ghost var k := 0;
      while true
        invariant 0 <= k < n && i == Step(index, k, n) && table[..] == t
        invariant forall j :: 0 <= j < k ==> Used(t, Step(index, j, n))
        decreases n - k
      {
        if table[i].id == INVALID {
          AddedOk(t, id, ptr.value, k);
          FreeTo(t, n, i);
          table[i] := Node(id, ptr);
          assert table[..] == WithEntry(t, id, ptr.value, k);
          return 0;
        }
        NextStep(index, k, n);
        i := (i + 1) % n;
        if i == index {
          break;
        }
        k := k + 1;
      }
      forall a | 0 <= a < n
        ensures Used(t, a)
      {
        assert Used(t, Step(index, Distance(index, a, n), n));
      }
      FullTo(t, n);
      return -1;
    }

    // What the id stands for, if anything.
    method Get(id: int) returns (ptr: Option<V>)
      requires Valid()
      ensures ptr == if id in M() then Some(M()[id]) else None
    {
      ghost var t := table[..];
      if id < 0 {
        return None;
      }
      var n := table.Length;
      var index := Home(id, n);
      var i := index;
      ghost var k := 0;
      while true
        invariant 0 <= k < n && i == Step(index, k, n)
        invariant forall j :: 0 <= j < k ==> t[Step(index, j, n)].id != id
        decreases n - k
      {
        if table[i].id == id {
          MapAt(t, id, k);
          return table[i].ptr;
        } else if table[i].id == INVALID {
          NotPassed(t, id, k);
          return None;
        }
        NextStep(index, k, n);
        i := (i + 1) % n;
        if i == index {
          break;
        }
        k := k + 1;
      }
      NotPassed(t, id, n);
      return None;
    }
  }
}
