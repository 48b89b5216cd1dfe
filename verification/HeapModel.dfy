// A binary heap in an array whose entries are also found by a key.
module HeapModel {
  import opened Options
  import opened Ordering
  import opened Sets

  // What one array slot holds. An unused slot has no data and key -1.
  datatype Slot<T> = Slot(data: Option<T>, key: int)

  // The array, how much of it is used, and the table from keys to places.
  datatype State<T> = State(a: seq<Slot<T>>, size: int, table: seq<int>)

  function Parent(i: int): (p: int)
    requires i > 0
    ensures 0 <= p < i && (i == 2 * p + 1 || i == 2 * p + 2)
  {
    (i - 1) / 2
  }

  ghost predicate Shape<T>(s: State<T>) {
    0 <= s.size <= |s.a| && |s.table| == |s.a| && forall i :: 0 <= i < s.size ==> s.a[i].data.Some?
  }

  ghost function Data<T>(s: State<T>): seq<T>
    requires Shape(s)
  {
    seq(s.size, i requires 0 <= i < s.size => s.a[i].data.value)
  }

  // The table finds the entry in slot i.
  ghost predicate KeyOk<T>(s: State<T>, i: int)
    requires Shape(s) && 0 <= i < s.size
  {
    0 <= s.a[i].key < |s.table| && s.table[s.a[i].key] == i
  }

  ghost predicate KeysOk<T>(s: State<T>) {
    Shape(s) && forall i {:trigger KeyOk(s, i)} :: 0 <= i < s.size ==> KeyOk(s, i)
  }

  // What is held under key k.
  ghost function Held<T>(s: State<T>, k: int): Option<T>
    requires Shape(s) && 0 <= k < |s.table|
  {
    if 0 <= s.table[k] < s.size && s.a[s.table[k]].key == k then s.a[s.table[k]].data else None
  }

  // What is held under all keys.
  ghost function Contents<T>(s: State<T>): map<int, T>
    requires Shape(s)
  {
    map k | 0 <= k < |s.table| && Held(s, k).Some? :: Held(s, k).value
  }

  // A key is marked as taken just when something is held under it.
  ghost predicate TableOk<T>(s: State<T>)
    requires Shape(s)
  {
    forall k :: 0 <= k < |s.table| ==> (s.table[k] >= 0 <==> Held(s, k).Some?)
  }

  // The same keys are marked as taken.
  ghost predicate SameMarks(t: seq<int>, t': seq<int>) {
    |t| == |t'| && forall k :: 0 <= k < |t| ==> (t[k] < 0 <==> t'[k] < 0)
  }

  // -------------------------------------------------------------------- order

  ghost predicate OrderAt<T>(cmp: (T, T) -> int, s: State<T>, i: int)
    requires Shape(s) && 0 < i < s.size
  {
    cmp(s.a[Parent(i)].data.value, s.a[i].data.value) <= 0
  }

  ghost predicate Ordered<T>(cmp: (T, T) -> int, s: State<T>)
    requires Shape(s)
  {
    forall i {:trigger OrderAt(cmp, s, i)} :: 0 < i < s.size ==> OrderAt(cmp, s, i)
  }

  // No entry is below the one in front.
  lemma {:induction false} FrontIsLeast<T(!new)>(cmp: (T, T) -> int, s: State<T>, i: int)
    requires IsComparator(cmp) && Shape(s) && Ordered(cmp, s) && 0 <= i < s.size
    ensures cmp(s.a[0].data.value, s.a[i].data.value) <= 0
  {
    if i == 0 {
      Transitive(cmp, s.a[0].data.value, s.a[0].data.value, s.a[0].data.value);
    } else {
      assert OrderAt(cmp, s, i);
      FrontIsLeast(cmp, s, Parent(i));
      Transitive(cmp, s.a[0].data.value, s.a[Parent(i)].data.value, s.a[i].data.value);
    }
  }

  // Ordered but for the entry at p, which may be too small for its place...
  ghost predicate GapAt<T>(cmp: (T, T) -> int, s: State<T>, p: int, i: int)
    requires Shape(s) && 0 < i < s.size
  {
    && (i != p && Parent(i) != p ==> OrderAt(cmp, s, i))
    && (Parent(i) == p && p > 0 ==> cmp(s.a[Parent(p)].data.value, s.a[i].data.value) <= 0)
  }

  // Ordered but for what touches the entry at p; what is above p is not above
  // what is below it.
  ghost predicate Gap<T>(cmp: (T, T) -> int, s: State<T>, p: int)
    requires Shape(s)
  {
    forall i {:trigger GapAt(cmp, s, p, i)} :: 0 < i < s.size ==> GapAt(cmp, s, p, i)
  }

  // The entry at p is not below its parent, or not above its children.
  ghost predicate UpOk<T>(cmp: (T, T) -> int, s: State<T>, p: int)
    requires Shape(s)
  {
    0 < p < s.size ==> OrderAt(cmp, s, p)
  }

  ghost predicate DownOk<T>(cmp: (T, T) -> int, s: State<T>, p: int)
    requires Shape(s)
  {
    p >= 0 && forall i {:trigger OrderAt(cmp, s, i)} :: 0 < i < s.size && Parent(i) == p ==> OrderAt(cmp, s, i)
  }

  lemma GapCloses<T>(cmp: (T, T) -> int, s: State<T>, p: int)
    requires Shape(s) && Gap(cmp, s, p) && UpOk(cmp, s, p) && DownOk(cmp, s, p)
    ensures Ordered(cmp, s)
  {
    forall i | 0 < i < s.size
      ensures OrderAt(cmp, s, i)
    {
      assert GapAt(cmp, s, p, i);
    }
  }

  // A change of one entry of an ordered heap leaves a gap there.
  lemma GapOpens<T(!new)>(cmp: (T, T) -> int, s: State<T>, s': State<T>, p: int)
    requires IsComparator(cmp) && Shape(s) && Ordered(cmp, s) && Shape(s') && 0 <= p && s'.size <= s.size
    requires forall i :: 0 <= i < s'.size && i != p ==> s'.a[i].data == s.a[i].data
    ensures Gap(cmp, s', p)
  {
    forall i | 0 < i < s'.size
      ensures GapAt(cmp, s', p, i)
    {
      assert OrderAt(cmp, s, i);
      if Parent(i) == p && p > 0 {
        assert OrderAt(cmp, s, p);
        Transitive(cmp, s.a[Parent(p)].data.value, s.a[p].data.value, s.a[i].data.value);
      }
    }
  }

  // --------------------------------------------------------------------- swaps

  ghost function Swapped<T>(s: State<T>, p: int, q: int): (s': State<T>)
    requires KeysOk(s) && 0 <= p < s.size && 0 <= q < s.size
    ensures Shape(s') && s'.size == s.size && |s'.a| == |s.a|
  {
    assert KeyOk(s, p) && KeyOk(s, q);
    State(s.a[p := s.a[q]][q := s.a[p]], s.size, s.table[s.a[p].key := q][s.a[q].key := p])
  }

  // The same entries under the same keys, at other places; other keys are left
  // alone.
  ghost predicate Moved<T>(s: State<T>, s': State<T>) {
    && KeysOk(s) && KeysOk(s') && s'.size == s.size && |s'.a| == |s.a|
    && s'.a[s.size..] == s.a[s.size..]
    && multiset(Data(s')) == multiset(Data(s))
    && forall k :: 0 <= k < |s.table| ==> HeldKept(s, s', k)
  }

  ghost predicate HeldKept<T>(s: State<T>, s': State<T>, k: int)
    requires Shape(s) && Shape(s') && |s'.a| == |s.a| && 0 <= k < |s.table|
  {
    Held(s', k) == Held(s, k) && (Held(s, k).None? ==> s'.table[k] == s.table[k])
  }

  lemma MovedChain<T>(s: State<T>, s': State<T>, s'': State<T>)
    requires Moved(s, s') && Moved(s', s'')
    ensures Moved(s, s'')
  {
    forall k | 0 <= k < |s.table|
      ensures HeldKept(s, s'', k)
    {
      assert HeldKept(s, s', k) && HeldKept(s', s'', k);
    }
  }

  lemma MovedSame<T>(s: State<T>)
    requires KeysOk(s)
    ensures Moved(s, s)
  {
  }

  lemma SwapBag<X>(a: seq<X>, p: int, q: int)
    requires 0 <= p < |a| && 0 <= q < |a|
    ensures multiset(a[p := a[q]][q := a[p]]) == multiset(a)
  {
  }

  lemma SwappedKeys<T>(s: State<T>, p: int, q: int)
    requires KeysOk(s) && 0 <= p < s.size && 0 <= q < s.size
    ensures KeysOk(Swapped(s, p, q))
  {
    var s' := Swapped(s, p, q);
    assert KeyOk(s, p) && KeyOk(s, q);
    forall i | 0 <= i < s.size
      ensures KeyOk(s', i)
    {
      assert KeyOk(s, i);
    }
  }

  lemma SwappedHeld<T>(s: State<T>, p: int, q: int, k: int)
    requires KeysOk(s) && 0 <= p < s.size && 0 <= q < s.size && 0 <= k < |s.table|
    ensures HeldKept(s, Swapped(s, p, q), k)
  {
    assert KeyOk(s, p) && KeyOk(s, q);
  }

  lemma SwappedOk<T>(s: State<T>, p: int, q: int)
    requires KeysOk(s) && 0 <= p < s.size && 0 <= q < s.size
    ensures Moved(s, Swapped(s, p, q))
  {
    var s' := Swapped(s, p, q);
    SwappedKeys(s, p, q);
    forall k | 0 <= k < |s.table|
      ensures HeldKept(s, s', k)
    {
      SwappedHeld(s, p, q, k);
    }
    assert Data(s') == Data(s)[p := Data(s)[q]][q := Data(s)[p]];
    SwapBag(Data(s), p, q);
  }

  // An entry below its parent goes up: the gap goes with it.
  lemma UpStep<T(!new)>(cmp: (T, T) -> int, s: State<T>, p: int)
    requires IsComparator(cmp) && KeysOk(s) && 0 < p < s.size && Gap(cmp, s, p) && DownOk(cmp, s, p)
             && !OrderAt(cmp, s, p)
    ensures var s' := Swapped(s, p, Parent(p)); Gap(cmp, s', Parent(p)) && DownOk(cmp, s', Parent(p))
  {
    var up := Parent(p);
    var s' := Swapped(s, p, up);
    var x, y := s.a[p].data.value, s.a[up].data.value;
    Transitive(cmp, x, y, y);
    forall i | 0 < i < s.size
      ensures GapAt(cmp, s', up, i) && (Parent(i) == up ==> OrderAt(cmp, s', i))
    {
      assert GapAt(cmp, s, p, i);
      if i != p { Transitive(cmp, x, y, s.a[i].data.value); }
      if up > 0 {
        assert GapAt(cmp, s, p, up);
        Transitive(cmp, s.a[Parent(up)].data.value, y, s.a[i].data.value);
      }
    }
  }

  // An entry above its least child c goes down.
  lemma DownStep<T(!new)>(cmp: (T, T) -> int, s: State<T>, p: int, c: int)
    requires IsComparator(cmp) && KeysOk(s) && 0 < c < s.size && Parent(c) == p && Gap(cmp, s, p)
    requires cmp(s.a[c].data.value, s.a[p].data.value) < 0
    requires forall i {:trigger Parent(i)} :: 0 < i < s.size && Parent(i) == p ==>
             cmp(s.a[c].data.value, s.a[i].data.value) <= 0
    ensures var s' := Swapped(s, p, c); Gap(cmp, s', c) && UpOk(cmp, s', c)
  {
    var s' := Swapped(s, p, c);
    forall i | 0 < i < s.size
      ensures GapAt(cmp, s', c, i)
    {
      assert GapAt(cmp, s, p, i) && GapAt(cmp, s, p, c);
    }
  }

  // An entry below its parent is below its children, if there is only this gap.
  lemma StuckBelow<T(!new)>(cmp: (T, T) -> int, s: State<T>, p: int)
    requires IsComparator(cmp) && Shape(s) && 0 <= p && Gap(cmp, s, p) && !UpOk(cmp, s, p)
    ensures forall i {:trigger Parent(i)} :: 0 < i < s.size && Parent(i) == p ==>
            cmp(s.a[i].data.value, s.a[p].data.value) > 0
  {
    var x, y := s.a[p].data.value, s.a[Parent(p)].data.value;
    Transitive(cmp, x, y, y);
    forall i | 0 < i < s.size && Parent(i) == p
      ensures cmp(s.a[i].data.value, x) > 0
    {
      assert GapAt(cmp, s, p, i);
      Transitive(cmp, x, y, s.a[i].data.value);
      Transitive(cmp, x, s.a[i].data.value, x);
    }
  }

  lemma DownStop<T(!new)>(cmp: (T, T) -> int, s: State<T>, p: int, c: int)
    requires IsComparator(cmp) && Shape(s) && 0 <= p
    requires p < s.size && 2 * p + 1 < s.size ==>
               p < c < s.size && cmp(s.a[c].data.value, s.a[p].data.value) >= 0
    requires p < s.size && 2 * p + 1 < s.size ==> forall i {:trigger Parent(i)} :: 0 < i < s.size && Parent(i) == p ==>
               cmp(s.a[c].data.value, s.a[i].data.value) <= 0
    ensures DownOk(cmp, s, p)
  {
    forall i | 0 < i < s.size && Parent(i) == p
      ensures OrderAt(cmp, s, i)
    {
      var x, y := s.a[p].data.value, s.a[c].data.value;
      Transitive(cmp, x, y, s.a[i].data.value);
    }
  }

  lemma MovedContents<T>(s: State<T>, s': State<T>)
    requires Moved(s, s')
    ensures Contents(s') == Contents(s) && (TableOk(s) ==> TableOk(s'))
    ensures SameMarks(s.table, s'.table)
  {
    forall k | 0 <= k < |s.table|
      ensures Held(s', k) == Held(s, k) && (Held(s, k).None? ==> s'.table[k] == s.table[k])
    {
      assert HeldKept(s, s', k);
    }
  }

  // ------------------------------------------------------- adding and removing

  ghost function Appended<T>(s: State<T>, data: T, key: int): State<T>
    requires Shape(s) && s.size < |s.a| && 0 <= key < |s.table|
  {
    State(s.a[s.size := Slot(Some(data), key)], s.size + 1, s.table[key := s.size])
  }

  lemma AppendedOk<T>(s: State<T>, data: T, key: int)
    requires KeysOk(s) && s.size < |s.a| && 0 <= key < |s.table| && s.table[key] < 0
    ensures var s' := Appended(s, data, key);
            && KeysOk(s') && (TableOk(s) ==> TableOk(s')) && Data(s') == Data(s) + [data] && key !in Contents(s)
            && Contents(s') == Contents(s)[key := data]
  {
    var s' := Appended(s, data, key);
    assert forall k :: 0 <= k < |s.table| ==> Held(s', k) == if k == key then Some(data) else Held(s, k);
    forall i | 0 <= i < s'.size
      ensures KeyOk(s', i)
    {
      if i < s.size { assert KeyOk(s, i); }
    }
  }

  lemma AppendedOrder<T(!new)>(cmp: (T, T) -> int, s: State<T>, data: T, key: int)
    requires KeysOk(s) && s.size < |s.a| && 0 <= key < |s.table| && Ordered(cmp, s) && Shape(Appended(s, data, key))
    ensures Gap(cmp, Appended(s, data, key), s.size) && DownOk(cmp, Appended(s, data, key), s.size)
  {
    var s' := Appended(s, data, key);
    forall i | 0 < i < s'.size
      ensures GapAt(cmp, s', s.size, i)
    {
      if i < s.size { assert OrderAt(cmp, s, i); }
    }
  }

  // The last entry is gone from the heap, but not from the table.
  ghost function Shortened<T>(s: State<T>): State<T>
    requires s.size > 0
  {
    s.(size := s.size - 1)
  }

  lemma ShortenedOk<T>(s: State<T>)
    requires KeysOk(s) && s.size > 0
    ensures var s', key := Shortened(s), s.a[s.size - 1].key;
            && KeysOk(s') && 0 <= key < |s.table| && Data(s') + [s.a[s.size - 1].data.value] == Data(s)
            && s'.table[key] == s'.size
            && forall k :: 0 <= k < |s.table| ==> Held(s', k) == if k == key then None else Held(s, k)
  {
    var s' := Shortened(s);
    assert KeyOk(s, s.size - 1);
    forall i | 0 <= i < s'.size
      ensures KeyOk(s', i)
    {
      assert KeyOk(s, i);
    }
    forall k | 0 <= k < |s.table|
      ensures Held(s', k) == if k == s.a[s.size - 1].key then None else Held(s, k)
    {
    }
  }

  // The table marks all keys but this one as it should.
  ghost predicate OthersOk<T>(s: State<T>, key: int)
    requires Shape(s)
  {
    forall k :: 0 <= k < |s.table| && k != key ==> (s.table[k] >= 0 <==> Held(s, k).Some?)
  }

  // A key under which nothing is held is marked as free.
  lemma FreedOk<T>(s: State<T>, key: int)
    requires KeysOk(s) && 0 <= key < |s.table| && Held(s, key).None?
    ensures var s' := s.(table := s.table[key := -1]);
            && KeysOk(s') && Data(s') == Data(s) && Contents(s') == Contents(s)
            && (OthersOk(s, key) ==> TableOk(s'))
  {
    var s' := s.(table := s.table[key := -1]);
    forall i | 0 <= i < s.size
      ensures KeyOk(s', i)
    {
      assert KeyOk(s, i);
    }
    assert Data(s') == Data(s);
  }

  ghost function Replaced<T>(s: State<T>, i: int, data: T): State<T>
    requires 0 <= i < |s.a|
  {
    s.(a := s.a[i := s.a[i].(data := Some(data))])
  }

  lemma ReplacedOk<T>(s: State<T>, i: int, data: T)
    requires KeysOk(s) && 0 <= i < s.size
    ensures var s' := Replaced(s, i, data);
            && KeysOk(s') && Data(s') == Data(s)[i := data] && (TableOk(s) ==> TableOk(s'))
            && Contents(s') == Contents(s)[s.a[i].key := data]
  {
    var s' := Replaced(s, i, data);
    assert KeyOk(s, i);
    forall j | 0 <= j < s.size
      ensures KeyOk(s', j)
    {
      assert KeyOk(s, j);
    }
    forall k | 0 <= k < |s.table|
      ensures Held(s', k) == if k == s.a[i].key then Some(data) else Held(s, k)
    {
    }
  }

  // The keys in the first n slots.
  ghost function KeysOf<T>(a: seq<Slot<T>>, n: int): (keys: set<int>)
    requires 0 <= n <= |a|
    ensures |keys| <= n && forall i :: 0 <= i < n ==> a[i].key in keys
  {
    if n == 0 then {} else KeysOf(a, n - 1) + {a[n - 1].key}
  }

  ghost function Range(n: nat): (r: set<int>)
    ensures |r| == n && forall k :: k in r <==> 0 <= k < n
  {
    if n == 0 then {} else Range(n - 1) + {n - 1}
  }

  // If every key is taken, so is every slot.
  lemma AllTaken<T>(s: State<T>)
    requires Shape(s) && TableOk(s) && forall k :: 0 <= k < |s.table| ==> s.table[k] >= 0
    ensures s.size == |s.a|
  {
    forall k | k in Range(|s.table|)
      ensures k in KeysOf(s.a, s.size)
    {
      assert Held(s, k).Some?;
    }
    SubsetSize(Range(|s.table|), KeysOf(s.a, s.size));
  }

  lemma {:induction false} KeysCount<T>(s: State<T>, n: int)
    requires KeysOk(s) && 0 <= n <= s.size
    ensures |KeysOf(s.a, n)| == n && forall k :: k in KeysOf(s.a, n) ==> 0 <= k < |s.table| && 0 <= s.table[k] < n
  {
    if n > 0 {
      KeysCount(s, n - 1);
      assert KeyOk(s, n - 1);
    }
  }

  // If every slot is taken, so is every key.
  lemma AllKeysTaken<T>(s: State<T>, k: int)
    requires KeysOk(s) && s.size == |s.a| && 0 <= k < |s.table|
    ensures s.table[k] >= 0
  {
    var others := Range(|s.table|) - {k};
    assert |others| == |s.table| - 1;
    KeysCount(s, s.size);
    if k !in KeysOf(s.a, s.size) {
      SubsetSize(KeysOf(s.a, s.size), others);
    }
  }

  // The entry at place i has been swapped to the end and cut off, and the others
  // have been sorted out.
  ghost predicate CutOff<T>(s: State<T>, i: int, s': State<T>) {
    KeysOk(s) && 0 <= i < s.size && Moved(Shortened(Swapped(s, i, s.size - 1)), s')
  }

  // Its key is still marked as taken.
  ghost predicate Lost<T>(s: State<T>, i: int, s': State<T>) {
    && KeysOk(s) && KeysOk(s') && 0 <= i < s.size
    && var key := s.a[i].key;
       && 0 <= key < |s.table| == |s'.table| && s'.size == s.size - 1 && s'.table[key] == s'.size
       && Held(s', key).None? && Held(s, key) == s.a[i].data && Contents(s') == Contents(s) - {key}
       && multiset(Data(s')) == multiset(Data(s)) - multiset{s.a[i].data.value}
       && (TableOk(s) ==> OthersOk(s', key))
       && SameMarks(s.table, s'.table)
  }

  lemma LastOut<X>(s: seq<X>, s': seq<X>, x: X)
    requires s' + [x] == s
    ensures x in multiset(s) && multiset(s') == multiset(s) - multiset{x}
  {
  }

  lemma CutOffAt<T>(s: State<T>, i: int, s': State<T>, k: int)
    requires CutOff(s, i, s') && 0 <= k < |s.table| == |s'.table|
    requires Moved(s, Swapped(s, i, s.size - 1)) && Swapped(s, i, s.size - 1).a[s.size - 1].key == s.a[i].key
    ensures Held(s', k) == if k == s.a[i].key then None else Held(s, k)
    ensures k == s.a[i].key ==> s'.table[k] == s.size - 1
    ensures k != s.a[i].key && TableOk(s) ==> (s'.table[k] >= 0 <==> Held(s', k).Some?)
    ensures s.table[k] < 0 <==> s'.table[k] < 0
  {
    var s1 := Swapped(s, i, s.size - 1);
    ShortenedOk(s1);
    assert HeldKept(s, s1, k) && HeldKept(Shortened(s1), s', k);
  }

  lemma ContentsMinus<T>(s: State<T>, s': State<T>, key: int)
    requires Shape(s) && Shape(s') && |s'.table| == |s.table|
    requires forall k :: 0 <= k < |s.table| ==> Held(s', k) == if k == key then None else Held(s, k)
    ensures Contents(s') == Contents(s) - {key}
  {
  }

  lemma CutOffOk<T>(s: State<T>, i: int, s': State<T>)
    requires CutOff(s, i, s')
    ensures Lost(s, i, s')
  {
    var s1 := Swapped(s, i, s.size - 1);
    SwappedOk(s, i, s.size - 1);
    ShortenedOk(s1);
    assert KeyOk(s, i) && s1.a[s.size - 1] == s.a[i];
    LastOut(Data(s1), Data(Shortened(s1)), s.a[i].data.value);
    forall k | 0 <= k < |s.table|
      ensures Held(s', k) == if k == s.a[i].key then None else Held(s, k)
      ensures k == s.a[i].key ==> s'.table[k] == s'.size
      ensures k != s.a[i].key && TableOk(s) ==> (s'.table[k] >= 0 <==> Held(s', k).Some?)
      ensures s.table[k] < 0 <==> s'.table[k] < 0
    {
      CutOffAt(s, i, s', k);
    }
    ContentsMinus(s, s', s.a[i].key);
  }

  lemma CutOffOrder<T(!new)>(cmp: (T, T) -> int, s: State<T>, i: int)
    requires IsComparator(cmp) && KeysOk(s) && 0 <= i < s.size && Ordered(cmp, s)
    ensures var s' := Shortened(Swapped(s, i, s.size - 1));
            && Gap(cmp, s', i)
            && (UpOk(cmp, s', i) <==>
               i == 0 || i == s'.size || cmp(s.a[Parent(i)].data.value, s.a[s.size - 1].data.value) <= 0)
  {
    GapOpens(cmp, s, Shortened(Swapped(s, i, s.size - 1)), i);
  }

  // ------------------------------------------------------------------ more room

  lemma GrownOk<T>(s: State<T>, s': State<T>)
    requires KeysOk(s) && s'.size == s.size == |s.a| <= |s'.a| == |s'.table|
    requires s'.a[..s.size] == s.a && s'.table[..s.size] == s.table
    requires forall k :: s.size <= k < |s'.table| ==> s'.table[k] == -1
    ensures KeysOk(s') && (TableOk(s) ==> TableOk(s')) && Data(s') == Data(s) && Contents(s') == Contents(s)
  {
    assert forall i :: 0 <= i < s.size ==> s'.a[..s.size][i] == s'.a[i] && s'.table[..s.size][i] == s'.table[i];
    forall i | 0 <= i < s.size
      ensures KeyOk(s', i)
    {
      assert KeyOk(s, i);
    }
    forall k | 0 <= k < |s'.table|
      ensures Held(s', k) == if k < s.size then Held(s, k) else None
    {
    }
    assert Data(s') == Data(s);
  }

  lemma SameOrder<T>(cmp: (T, T) -> int, s: State<T>, s': State<T>)
    requires Shape(s) && Shape(s') && Data(s') == Data(s)
    ensures Ordered(cmp, s) <==> Ordered(cmp, s')
  {
    assert s'.size == |Data(s')| && s.size == |Data(s)|;
    forall i | 0 < i < s'.size
      ensures OrderAt(cmp, s, i) <==> OrderAt(cmp, s', i)
    {
      assert Data(s')[i] == Data(s)[i] && Data(s')[Parent(i)] == Data(s)[Parent(i)];
    }
  }

  // The heap with these entries in their order, under keys that count up.
  ghost function Filled<T>(xs: seq<T>, cap: int): State<T>
    requires |xs| <= cap
  {
    State(seq(cap, i requires 0 <= i < cap => if i < |xs| then Slot(Some(xs[i]), i) else Slot(None, -1)), |xs|,
          seq(cap, k requires 0 <= k < cap => if k < |xs| then k else -1))
  }

  lemma FilledNext<T>(xs: seq<T>, x: T, cap: int)
    requires |xs| < cap
    ensures Shape(Filled(xs, cap)) && Appended(Filled(xs, cap), x, |xs|) == Filled(xs + [x], cap)
  {
  }

  // ------------------------------------------------------------- keys over runs

  ghost predicate AllMarked(t: seq<int>) { forall k :: 0 <= k < |t| ==> t[k] >= 0 }

  ghost function TakenKeys(t: seq<int>): set<int> { set k | 0 <= k < |t| && t[k] >= 0 }

  // The entries, the keys marked as taken, and the room there is for either.
  datatype Tally = Tally(size: int, taken: int, cap: int)

  ghost function TallyOf<T>(s: State<T>): Tally { Tally(s.size, |TakenKeys(s.table)|, |s.a|) }

  lemma SameTaken(t: seq<int>, t': seq<int>)
    requires SameMarks(t, t')
    ensures TakenKeys(t') == TakenKeys(t)
  {
  }

  lemma MoreTaken(t: seq<int>, k: int, i: int)
    requires 0 <= k < |t| && t[k] < 0 <= i
    ensures |TakenKeys(t[k := i])| == |TakenKeys(t)| + 1
  {
    assert TakenKeys(t[k := i]) == TakenKeys(t) + {k};
  }

  lemma LessTaken(t: seq<int>, k: int)
    requires 0 <= k < |t| && t[k] >= 0
    ensures |TakenKeys(t[k := -1])| == |TakenKeys(t)| - 1
  {
    assert TakenKeys(t[k := -1]) == TakenKeys(t) - {k} && k in TakenKeys(t);
  }

  lemma NoneTaken(t: seq<int>)
    requires forall k :: 0 <= k < |t| ==> t[k] < 0
    ensures TakenKeys(t) == {}
  {
  }

  // All keys are taken just when there are as many as keys.
  lemma TakenCount(t: seq<int>)
    ensures |TakenKeys(t)| <= |t|
    ensures |TakenKeys(t)| == |t| <==> AllMarked(t)
  {
    var all := Range(|t|);
    SubsetSize(TakenKeys(t), all);
    if k :| 0 <= k < |t| && t[k] < 0 {
      assert |all - {k}| == |t| - 1;
      SubsetSize(TakenKeys(t), all - {k});
    } else {
      assert TakenKeys(t) == all;
    }
  }

  lemma GrownTaken(t: seq<int>, t': seq<int>)
    requires |t| <= |t'| && t'[..|t|] == t && forall k :: |t| <= k < |t'| ==> t'[k] < 0
    ensures TakenKeys(t') == TakenKeys(t)
  {
    assert forall k :: 0 <= k < |t| ==> t'[..|t|][k] == t'[k];
  }

  // What the operations do to the tally: an insertion makes room for an entry if
  // there is none, and a pop gives no key back.
  datatype Use = Put | Take | PopTop

  predicate RoomIn(t: Tally) { t.taken < t.cap || t.size == t.cap }

  function After(t: Tally, use: Use): Tally {
    match use
    case Put => Tally(t.size + 1, t.taken + 1, if t.size == t.cap then 2 * t.cap else t.cap)
    case Take => t.(size := t.size - 1, taken := t.taken - 1)
    case PopTop => t.(size := t.size - 1)
  }

  lemma LostTally<T>(s: State<T>, i: int, s': State<T>)
    requires Lost(s, i, s') && |s'.a| == |s.a|
    ensures TallyOf(s') == After(TallyOf(s), PopTop)
  {
    SameTaken(s.table, s'.table);
  }

  predicate Usable(t: Tally, use: Use) { if use.Put? then RoomIn(t) else t.size > 0 }

  // No use of the run is without what it needs.
  predicate Runs(t: Tally, uses: seq<Use>)
    decreases |uses|
  {
    uses == [] || (Usable(t, uses[0]) && Runs(After(t, uses[0]), uses[1..]))
  }

  function AfterAll(t: Tally, uses: seq<Use>): Tally
    decreases |uses|
  {
    if uses == [] then t else AfterAll(After(t, uses[0]), uses[1..])
  }

  // Insertions less erasures.
  function Net(uses: seq<Use>): int
    decreases |uses|
  {
    if uses == [] then 0
    else (if uses[0].Put? then 1 else if uses[0].Take? then -1 else 0) + Net(uses[1..])
  }

  function Pops(uses: seq<Use>): nat
    decreases |uses|
  {
    if uses == [] then 0 else (if uses[0].PopTop? then 1 else 0) + Pops(uses[1..])
  }

  predicate TallyOk(t: Tally) { 0 <= t.size <= t.taken <= t.cap && t.cap > 0 }

  // Every run keeps count: keys taken are insertions less erasures, and entries are
  // fewer by what has been popped.
  lemma {:induction false} RunCounts(t: Tally, uses: seq<Use>)
    requires TallyOk(t) && Runs(t, uses)
    ensures var t' := AfterAll(t, uses);
            TallyOk(t') && t'.taken == t.taken + Net(uses) && t'.size == t.size + Net(uses) - Pops(uses)
    decreases |uses|
  {
    if uses != [] { RunCounts(After(t, uses[0]), uses[1..]); }
  }

  // As long as nothing is popped, there always is room.
  lemma {:induction false} RoomUntilPopped(t: Tally, uses: seq<Use>)
    requires TallyOk(t) && t.size == t.taken && Runs(t, uses) && Pops(uses) == 0
    ensures RoomIn(AfterAll(t, uses))
  {
    RunCounts(t, uses);
  }

  // Once something has been popped, the heap never grows again, and there is room
  // just while insertions less erasures leave keys over.
  lemma {:induction false} PoppedRuns(t: Tally, uses: seq<Use>)
    requires TallyOk(t) && t.size < t.taken && Runs(t, uses)
    ensures var t' := AfterAll(t, uses);
            t'.cap == t.cap && t'.size < t'.taken && (RoomIn(t') <==> t.taken + Net(uses) < t.cap)
    decreases |uses|
  {
    if uses != [] {
      PoppedRuns(After(t, uses[0]), uses[1..]);
    }
  }

  // Fifteen insertions, a pop and an insertion leave a heap of 15 entries in 16 slots
  // that has no key for another.
  lemma FifteenInSixteen()
    ensures var t := AfterAll(Tally(15, 15, 16), [PopTop, Put]); t == Tally(15, 16, 16) && !RoomIn(t)
  {
    assert [PopTop, Put][1..] == [Put] && [Put][1..] == [];
  }
}
