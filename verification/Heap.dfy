module Heaps {
  import opened Options
  import opened Ordering
  import opened HeapModel

  const HEAP_DEFAULT_SIZE := 16

  lemma Cycle(n: int, k: int)
    requires 0 <= k < n
    ensures (k + 1) % n == if k + 1 < n then k + 1 else 0
  {
  }

  class Heap<T(!new)> {
    var slots: array<Slot<T>>
    var size: int
    var keyTable: array<int>
    var nextKey: int
    const cmp: (T, T) -> int

    ghost function S(): State<T>
      reads this, slots, keyTable
    {
      State(slots[..], size, keyTable[..])
    }

    // What every operation keeps, pops included.
    ghost predicate Valid()
      reads this, slots, keyTable
    {
      IsComparator(cmp) && |S().a| > 0 && KeysOk(S())
    }

    // The next key is free, or the capacity if none is. Every operation keeps this,
    // too.
    ghost predicate Sound()
      reads this, slots, keyTable
    {
      && Valid() && 0 <= nextKey <= slots.Length
      && if nextKey < slots.Length then keyTable[nextKey] < 0 else AllMarked(keyTable[..])
    }

    // The entries, the keys taken and the room for them.
    ghost function Counts(): Tally
      reads this, slots, keyTable
    {
      TallyOf(S())
    }

    // An insertion finds a key: the next one, or one that growing makes.
    predicate Room()
      reads this, slots
    {
      nextKey < slots.Length || size == slots.Length
    }

    lemma RoomByCounts()
      requires Sound()
      ensures Room() <==> RoomIn(Counts())
    {
      TakenCount(keyTable[..]);
    }

    // What every operation but a pop keeps: no key is lost, and the next key is
    // the capacity just when the heap is full.
    ghost predicate Full()
      reads this, slots, keyTable
    {
      Sound() && TableOk(S()) && (nextKey == slots.Length <==> size == slots.Length)
    }

    constructor (cmp: (T, T) -> int)
      requires IsComparator(cmp)
      ensures Full() && S() == Filled([], HEAP_DEFAULT_SIZE) && nextKey == 0 && Ordered(cmp, S()) && this.cmp == cmp
      ensures fresh(slots) && fresh(keyTable) && slots.Length == HEAP_DEFAULT_SIZE
      ensures Counts() == Tally(0, 0, 16)
    {
      this.cmp := cmp;
      slots := new Slot<T>[HEAP_DEFAULT_SIZE](_ => Slot(None, -1));
      keyTable := new int[HEAP_DEFAULT_SIZE](_ => -1);
      size, nextKey := 0, 0;
      new;
      assert S() == Filled([], HEAP_DEFAULT_SIZE);
      NoneTaken(keyTable[..]);
    }

    method Swap(pos1: int, pos2: int)
      requires Valid() && 0 <= pos1 < size && 0 <= pos2 < size
      modifies slots, keyTable
      ensures S() == Swapped(old(S()), pos1, pos2) && Valid() && Moved(old(S()), S())
    {
      ghost var s := S();
      assert KeyOk(s, pos1) && KeyOk(s, pos2);
      SwappedOk(s, pos1, pos2);
      var temp := slots[pos1];
      keyTable[slots[pos1].key] := pos2;
      keyTable[slots[pos2].key] := pos1;
      slots[pos1] := slots[pos2];
      slots[pos2] := temp;
    }

    // Twice the room; nothing else changes.
    method Grow()
      requires Sound() && size == slots.Length
      modifies this`slots, this`keyTable
      ensures Sound() && (old(Full()) ==> Full()) && fresh(slots) && fresh(keyTable)
              && slots.Length == 2 * old(slots.Length)
      ensures Data(S()) == old(Data(S())) && Contents(S()) == old(Contents(S())) && nextKey < slots.Length
      ensures Counts() == old(Counts()).(cap := 2 * old(slots.Length))
    {
      if nextKey < slots.Length { AllKeysTaken(S(), nextKey); }
      var newSize := slots.Length * 2;
      var newSlots := new Slot<T>[newSize](_ => Slot(None, -1));
      var newKeyTable := new int[newSize](_ => -1);
      for index := 0 to slots.Length
        invariant newSlots[..index] == slots[..index] && newKeyTable[..index] == keyTable[..index]
        invariant forall k :: index <= k < newSize ==> newKeyTable[k] == -1
        modifies newSlots, newKeyTable
      {
        newSlots[index] := slots[index];
        newKeyTable[index] := keyTable[index];
      }
      GrownOk(S(), State(newSlots[..], size, newKeyTable[..]));
      GrownTaken(keyTable[..], newKeyTable[..]);
      slots, keyTable := newSlots, newKeyTable;
    }

    // The next free key in cyclic order, or the capacity if there is none.
    method SetNextKey()
      requires Valid() && 0 <= nextKey < slots.Length && keyTable[nextKey] >= 0
      modifies this`nextKey
      ensures if nextKey == slots.Length then forall k :: 0 <= k < slots.Length ==> keyTable[k] >= 0
              else 0 <= nextKey < slots.Length && keyTable[nextKey] < 0
      ensures old(nextKey) + 1 < slots.Length && keyTable[old(nextKey) + 1] < 0 ==> nextKey == old(nextKey) + 1
    {
      var n := slots.Length;
      Cycle(n, nextKey);
      var key := (nextKey + 1) % n;
      ghost var seen := 1;
      while key != nextKey
        invariant 1 <= seen <= n && key == (if nextKey + seen < n then nextKey + seen else nextKey + seen - n)
        invariant 0 <= key < n && nextKey == old(nextKey)
        invariant forall k :: nextKey <= k < nextKey + seen && k < n ==> keyTable[k] >= 0
        invariant forall k :: 0 <= k < nextKey + seen - n ==> keyTable[k] >= 0
        decreases n - seen
      {
        if keyTable[key] < 0 {
          nextKey := key;
          return;
        }
        Cycle(n, key);
        key := (key + 1) % n;
        seen := seen + 1;
      }
      nextKey := n;
    }

    // From a place that may be too large for it, an entry goes down. This orders
    // the heap just when the entry is not too small for the place.
    method RotDown(start: int)
      requires Valid() && 0 <= start
      modifies slots, keyTable
      ensures Valid() && Moved(old(S()), S())
      ensures old(Gap(cmp, S(), start)) ==> (Ordered(cmp, S()) <==> old(UpOk(cmp, S(), start)))
    {
      ghost var s0 := S();
      MovedSame(s0);
      ghost var gap := Gap(cmp, s0, start);
      if gap && !UpOk(cmp, s0, start) { StuckBelow(cmp, s0, start); }
      var pos := start;
      while pos < size
        invariant 0 <= pos && Valid() && Moved(s0, S()) && slots.Length == |s0.a|
        invariant gap ==> Gap(cmp, S(), pos)
        invariant gap && UpOk(cmp, s0, start) ==> UpOk(cmp, S(), pos)
        invariant gap && !UpOk(cmp, s0, start) ==> pos == start && S() == s0
        decreases if pos < size then size - pos else 0
      {
        var child := Least(pos);
        if child < 0 || cmp(slots[child].data.value, slots[pos].data.value) >= 0 {
          DownStop(cmp, S(), pos, child);
          break;
        }
        ghost var s := S();
        if gap { DownStep(cmp, s, pos, child); }
        Swap(pos, child);
        MovedChain(s0, s, S());
        pos := child;
      }
      if gap && UpOk(cmp, s0, start) { GapCloses(cmp, S(), pos); }
    }

    // The child to compare with: the left one if it is below the right one.
    method Least(pos: int) returns (child: int)
      requires Valid() && 0 <= pos < size
      ensures child == -1 <==> 2 * pos + 1 >= size
      ensures child != -1 ==> pos < child < size && Parent(child) == pos
      ensures child != -1 ==> forall i {:trigger Parent(i)} :: 0 < i < size && Parent(i) == pos ==>
                cmp(slots[child].data.value, slots[i].data.value) <= 0
    {
      var left, right := 2 * pos + 1, 2 * pos + 2;
      if left >= size {
        child := -1;
      } else if right >= size {
        child := left;
        Transitive(cmp, slots[left].data.value, slots[left].data.value, slots[left].data.value);
      } else if cmp(slots[left].data.value, slots[right].data.value) < 0 {
        child := left;
        Transitive(cmp, slots[left].data.value, slots[left].data.value, slots[left].data.value);
      } else {
        child := right;
        Transitive(cmp, slots[left].data.value, slots[right].data.value, slots[right].data.value);
        Transitive(cmp, slots[right].data.value, slots[right].data.value, slots[right].data.value);
      }
    }

    // From a place that may be too small for it, an entry goes up.
    method RotUp(start: int)
      requires Valid() && 0 <= start < size
      modifies slots, keyTable
      ensures Valid() && Moved(old(S()), S())
      ensures old(Gap(cmp, S(), start) && DownOk(cmp, S(), start)) ==> Ordered(cmp, S())
      ensures old(UpOk(cmp, S(), start)) ==> S() == old(S())
    {
      ghost var s0 := S();
      MovedSame(s0);
      ghost var gap := Gap(cmp, s0, start) && DownOk(cmp, s0, start);
      var pos := start;
      while pos > 0
        invariant 0 <= pos < size && Valid() && Moved(s0, S()) && slots.Length == |s0.a|
        invariant gap ==> Gap(cmp, S(), pos) && DownOk(cmp, S(), pos)
        invariant UpOk(cmp, s0, start) ==> S() == s0 && pos == start
      {
        var up := Parent(pos);
        Transitive(cmp, slots[pos].data.value, slots[up].data.value, slots[up].data.value);
        if cmp(slots[pos].data.value, slots[up].data.value) >= 0 {
          break;
        }
        ghost var s := S();
        if gap { UpStep(cmp, s, pos); }
        Swap(pos, up);
        MovedChain(s0, s, S());
        pos := up;
      }
      if gap { GapCloses(cmp, S(), pos); }
    }

    // The new entry under a fresh key.
    method Append(data: T) returns (key: int)
      requires Sound() && nextKey < slots.Length && size < slots.Length
      modifies this`size, this`nextKey, slots, keyTable
      ensures key == old(nextKey) && 0 <= key < slots.Length && S() == Appended(old(S()), data, key)
      ensures Sound() && (old(Full()) ==> Full())
      ensures Counts().size == old(Counts()).size + 1 && Counts().taken == old(Counts()).taken + 1
      ensures key + 1 < slots.Length && old(keyTable[nextKey + 1]) < 0 ==> nextKey == key + 1
    {
      ghost var full := Full();
      key := nextKey;
      AppendedOk(S(), data, key);
      MoreTaken(keyTable[..], key, size);
      slots[size] := Slot(Some(data), key);
      size := size + 1;
      keyTable[key] := size - 1;
      assert S() == Appended(old(S()), data, key);
      SetNextKey();
      if full && nextKey == slots.Length { AllTaken(S()); }
      if nextKey < size == slots.Length { AllKeysTaken(S(), nextKey); }
    }

    // Nothing has to move for the new entry: it is not below its parent.
    ghost predicate Fits(data: T)
      reads this, slots, keyTable
      requires Valid()
    {
      size < slots.Length && 0 <= nextKey < slots.Length && UpOk(cmp, Appended(S(), data, nextKey), size)
    }

    // The last entry is sorted in.
    method SortIn()
      requires Valid() && size > 0
      modifies slots, keyTable
      ensures Valid() && multiset(Data(S())) == old(multiset(Data(S())))
      ensures Contents(S()) == old(Contents(S())) && Counts() == old(Counts())
      ensures (old(Sound()) ==> Sound()) && (old(Full()) ==> Full())
      ensures old(Gap(cmp, S(), size - 1) && DownOk(cmp, S(), size - 1)) ==> Ordered(cmp, S())
      ensures old(UpOk(cmp, S(), size - 1)) ==> S() == old(S())
    {
      ghost var s := S();
      RotUp(size - 1);
      MovedContents(s, S());
      SameTaken(s.table, keyTable[..]);
    }

    // The same in a heap that has room.
    method Place(data: T) returns (key: int)
      requires Sound() && nextKey < slots.Length && size < slots.Length
      modifies this`size, this`nextKey, slots, keyTable
      ensures Sound() && (old(Full()) ==> Full()) && size == old(size) + 1 && 0 <= key < slots.Length
      ensures key !in old(Contents(S())) && Contents(S()) == old(Contents(S()))[key := data]
      ensures multiset(Data(S())) == old(multiset(Data(S()))) + multiset{data}
      ensures Counts().taken == old(Counts()).taken + 1
      ensures old(Ordered(cmp, S())) ==> Ordered(cmp, S())
      ensures old(Fits(data)) ==> S() == Appended(old(S()), data, key) && key == old(nextKey)
      ensures old(nextKey) + 1 < slots.Length && old(keyTable[nextKey + 1]) < 0 ==> nextKey == old(nextKey) + 1
    {
      ghost var s := S();
      AppendedOk(s, data, nextKey);
      if Ordered(cmp, s) { AppendedOrder(cmp, s, data, nextKey); }
      key := Append(data);
      SortIn();
    }

    // The key of the new entry, free until now. Without room for a key, which takes a
    // heap that has been popped (see HeapModel.PoppedRuns), the program would write
    // behind its key table.
    method Insert(data: T) returns (key: int)
      requires Sound() && Room()
      modifies this`slots, this`keyTable, this`size, this`nextKey, slots, keyTable
      ensures Sound() && (old(Full()) ==> Full()) && size == old(size) + 1
      ensures (slots == old(slots) || fresh(slots)) && (keyTable == old(keyTable) || fresh(keyTable))
      ensures Counts() == After(old(Counts()), Put)
      ensures 0 <= key < slots.Length
      ensures key !in old(Contents(S())) && Contents(S()) == old(Contents(S()))[key := data]
      ensures multiset(Data(S())) == old(multiset(Data(S()))) + multiset{data}
      ensures old(Ordered(cmp, S())) ==> Ordered(cmp, S())
      ensures old(Fits(data)) ==>
                slots.Length == old(slots.Length) && S() == Appended(old(S()), data, key) && key == old(nextKey)
      ensures old(size < slots.Length && 0 <= nextKey && nextKey + 1 < slots.Length && keyTable[nextKey + 1] < 0) ==>
                nextKey == old(nextKey) + 1
    {
      ghost var s := S();
      if slots.Length == size {
        Grow();
        SameOrder(cmp, s, S());
      }
      key := Place(data);
    }

    // What was held under the key, if anything. The order survives just when the
    // last entry, which takes the place of the one erased, is not below what is
    // above that place: it is only ever moved down. For the key of an entry that has
    // been popped, the program would erase some other entry.
    method Erase(key: int) returns (found: Option<T>)
      requires Sound() && 0 <= key < slots.Length && (keyTable[key] >= 0 ==> Held(S(), key).Some?)
      modifies this`size, this`nextKey, slots, keyTable
      ensures Sound() && (old(Full()) ==> Full()) && found == old(Held(S(), key))
      ensures size == old(size) - if found.Some? then 1 else 0
      ensures Counts() == if found.Some? then After(old(Counts()), Take) else old(Counts())
      ensures Contents(S()) == old(Contents(S())) - {key}
      ensures found.Some? ==> multiset(Data(S())) == old(multiset(Data(S()))) - multiset{found.value}
      ensures found.Some? && old(Ordered(cmp, S())) ==>
                var i, n := old(keyTable[key]), size;
                Ordered(cmp, S()) <==>
                  || i == 0 || i == n
                  || old(cmp(slots[Parent(keyTable[key])].data.value, slots[size - 1].data.value)) <= 0
    {
      ghost var s := S();
      if keyTable[key] < 0 {
        return None;
      }
      var index := keyTable[key];
      assert Held(s, key).Some?;
      found := slots[index].data;
      if nextKey == slots.Length {
        nextKey := key;
      }
      RemoveKey(index, key);
    }

    method RemoveKey(index: int, key: int)
      requires Valid() && 0 <= index < size && slots[index].key == key
      modifies this`size, slots, keyTable
      ensures Valid() && 0 <= key < slots.Length && size == old(size) - 1 && (old(TableOk(S())) ==> TableOk(S()))
      ensures Contents(S()) == old(Contents(S())) - {key}
      ensures multiset(Data(S())) == old(multiset(Data(S()))) - multiset{old(slots[index].data.value)}
      ensures keyTable[key] < 0 && forall k :: 0 <= k < slots.Length && old(keyTable[k]) < 0 ==> keyTable[k] < 0
      ensures Counts() == After(old(Counts()), Take)
      ensures old(Ordered(cmp, S())) ==>
                (Ordered(cmp, S()) <==>
                   || index == 0 || index == size
                   || old(cmp(slots[Parent(index)].data.value, slots[size - 1].data.value)) <= 0)
    {
      Remove(index);
      FreeKey(key);
    }

    method FreeKey(key: int)
      requires Valid() && 0 <= key < slots.Length && Held(S(), key).None? && keyTable[key] >= 0
      modifies keyTable
      ensures Valid() && (old(OthersOk(S(), key)) ==> TableOk(S())) && Data(S()) == old(Data(S()))
              && Contents(S()) == old(Contents(S()))
      ensures Ordered(cmp, S()) <==> old(Ordered(cmp, S()))
      ensures forall k :: 0 <= k < slots.Length ==> keyTable[k] == if k == key then -1 else old(keyTable[k])
      ensures Counts() == old(Counts()).(taken := old(Counts()).taken - 1)
    {
      ghost var s := S();
      FreedOk(s, key);
      LessTaken(s.table, key);
      keyTable[key] := -1;
      assert S() == s.(table := s.table[key := -1]);
      SameOrder(cmp, s, S());
    }

    // The last entry takes the place of another, which is cut off, and is sorted in.
    method CutOut(index: int)
      requires Valid() && 0 <= index < size
      modifies this`size, slots, keyTable
      ensures var s1 := Shortened(Swapped(old(S()), index, old(size) - 1));
              Valid() && Moved(s1, S()) && (old(Ordered(cmp, S())) ==> (Ordered(cmp, S()) <==> UpOk(cmp, s1, index)))
    {
      ghost var s1 := Shortened(Swapped(S(), index, size - 1));
      if Ordered(cmp, S()) { CutOffOrder(cmp, S(), index); }
      Shorten(index);
      assert S() == s1;
      RotDown(index);
    }

    // An entry is lost, but not its key.
    method Remove(index: int)
      requires Valid() && 0 <= index < size
      modifies this`size, slots, keyTable
      ensures Valid() && Lost(old(S()), index, S()) && Counts() == After(old(Counts()), PopTop)
      ensures old(Ordered(cmp, S())) ==>
                (Ordered(cmp, S()) <==>
                   || index == 0 || index == size
                   || old(cmp(slots[Parent(index)].data.value, slots[size - 1].data.value)) <= 0)
    {
      ghost var s := S();
      if Ordered(cmp, s) { CutOffOrder(cmp, s, index); }
      CutOut(index);
      CutOffOk(s, index, S());
      LostTally(s, index, S());
    }

    method Shorten(index: int)
      requires Valid() && 0 <= index < size
      modifies this`size, slots, keyTable
      ensures Valid() && S() == Shortened(Swapped(old(S()), index, old(size) - 1))
    {
      SwappedOk(S(), index, size - 1);
      ShortenedOk(Swapped(S(), index, size - 1));
      Swap(index, size - 1);
      size := size - 1;
    }

    // What is held under the key is replaced. The order survives just when the
    // new datum is not below what is above it.
    method Update(key: int, data: T)
      requires Valid() && 0 <= key < slots.Length && (keyTable[key] >= 0 ==> Held(S(), key).Some?)
      modifies slots, keyTable
      ensures Valid() && (old(Sound()) ==> Sound()) && (old(Full()) ==> Full()) && Counts() == old(Counts())
      ensures Contents(S()) == if old(keyTable[key]) >= 0 then old(Contents(S()))[key := data] else old(Contents(S()))
      ensures old(keyTable[key]) >= 0 && old(Ordered(cmp, S())) ==>
                (Ordered(cmp, S()) <==>
                    old(keyTable[key]) == 0 || cmp(old(slots[Parent(keyTable[key])].data.value), data) <= 0)
    {
      var index := keyTable[key];
      if index < 0 {
        return;
      }
      ghost var s := S();
      ReplacedOk(s, index, data);
      if Ordered(cmp, s) { GapOpens(cmp, s, Replaced(s, index, data), index); }
      slots[index] := slots[index].(data := Some(data));
      ghost var s1 := S();
      assert s1 == Replaced(s, index, data);
      RotDown(index);
      MovedContents(s1, S());
      SameTaken(s1.table, keyTable[..]);
    }

    // The holder of an entry changes what the order does not look at.
    method SetDatum(key: int, data: T)
      requires Valid() && key in Contents(S())
      requires forall x :: cmp(data, x) == cmp(Contents(S())[key], x) && cmp(x, data) == cmp(x, Contents(S())[key])
      modifies slots
      ensures Valid() && (old(Sound()) ==> Sound()) && (old(Full()) ==> Full())
              && Contents(S()) == old(Contents(S()))[key := data] && Counts() == old(Counts())
      ensures old(Ordered(cmp, S())) ==> Ordered(cmp, S())
    {
      ghost var s, index := S(), keyTable[key];
      ReplacedOk(s, index, data);
      slots[keyTable[key]] := slots[keyTable[key]].(data := Some(data));
      assert S() == Replaced(s, index, data);
      if Ordered(cmp, s) {
        forall i | 0 < i < size
          ensures OrderAt(cmp, S(), i)
        {
          assert OrderAt(cmp, s, i);
          Transitive(cmp, data, data, data);
        }
      }
    }

    // The entry in front: in an ordered heap none is below it.
    method Top() returns (top: Option<T>)
      requires Valid()
      ensures top.None? <==> size == 0
      ensures top.Some? ==> 0 <= slots[0].key < slots.Length && top == Held(S(), slots[0].key)
      ensures top.Some? && Ordered(cmp, S()) ==> IsLeast(cmp, multiset(Data(S())), top.value)
    {
      if size > 0 {
        assert KeyOk(S(), 0);
        if Ordered(cmp, S()) { FrontIsLeastOfAll(cmp, S()); }
      }
      top := if size > 0 then slots[0].data else None;
    }

    // The least entry of an ordered heap. Its key stays taken, although nothing
    // is held under it any more.
    method Pop() returns (top: Option<T>)
      requires Valid()
      modifies this`size, slots, keyTable
      ensures Valid() && (old(Sound()) ==> Sound()) && size == if top.Some? then old(size) - 1 else old(size)
      ensures top.None? <==> old(size) == 0
      ensures Counts() == if top.Some? then After(old(Counts()), PopTop) else old(Counts())
      ensures top.None? ==> S() == old(S())
      ensures top.Some? ==> var key := old(slots[0].key);
                && 0 <= key < slots.Length && top == old(Held(S(), key)) && keyTable[key] == size
                && Contents(S()) == old(Contents(S())) - {key}
      ensures top.Some? ==>
                && top.value in old(multiset(Data(S())))
                && multiset(Data(S())) == old(multiset(Data(S()))) - multiset{top.value}
      ensures top.Some? && old(Ordered(cmp, S())) ==>
              Ordered(cmp, S()) && IsLeast(cmp, old(multiset(Data(S()))), top.value)
    {
      if size == 0 {
        return None;
      }
      ghost var s := S();
      assert KeyOk(s, 0);
      top := slots[0].data;
      assert Data(s)[0] == top.value;
      if Ordered(cmp, s) { FrontIsLeastOfAll(cmp, s); }
      Remove(0);
    }
  }

  ghost predicate IsLeast<T>(cmp: (T, T) -> int, bag: multiset<T>, x: T) {
    x in bag && forall y :: y in bag ==> cmp(x, y) <= 0
  }

  lemma FrontIsLeastOfAll<T(!new)>(cmp: (T, T) -> int, s: State<T>)
    requires IsComparator(cmp) && Shape(s) && Ordered(cmp, s) && s.size > 0
    ensures IsLeast(cmp, multiset(Data(s)), s.a[0].data.value)
  {
    assert Data(s)[0] == s.a[0].data.value;
    forall y | y in multiset(Data(s))
      ensures cmp(s.a[0].data.value, y) <= 0
    {
      assert y in Data(s);
      var i :| 0 <= i < |Data(s)| && Data(s)[i] == y;
      FrontIsLeast(cmp, s, i);
    }
  }

  // Everything in ys is at most what is left in the bag.
  ghost predicate AllBelow<T>(cmp: (T, T) -> int, ys: seq<T>, bag: multiset<T>) {
    forall x, y :: x in ys && y in bag ==> cmp(x, y) <= 0
  }

  lemma PopStep<T(!new)>(cmp: (T, T) -> int, ys: seq<T>, bag: multiset<T>, top: T)
    requires Sorted(cmp, ys) && AllBelow(cmp, ys, bag) && IsLeast(cmp, bag, top)
    ensures Sorted(cmp, ys + [top]) && AllBelow(cmp, ys + [top], bag - multiset{top})
  {
    var zs := ys + [top];
    forall i, j | 0 <= i < j < |zs|
      ensures cmp(zs[i], zs[j]) <= 0
    {
      if j == |ys| { assert zs[i] in ys; }
    }
  }

  method InsertAll<T(!new)>(cmp: (T, T) -> int, xs: seq<T>) returns (heap: Heap<T>)
    requires IsComparator(cmp)
    ensures fresh(heap) && fresh(heap.slots) && fresh(heap.keyTable) && heap.Full() && heap.cmp == cmp
    ensures Ordered(cmp, heap.S()) && multiset(Data(heap.S())) == multiset(xs)
  {
    heap := new Heap<T>(cmp);
    assert Data(heap.S()) == [];
    for i := 0 to |xs|
      invariant fresh(heap) && fresh(heap.slots) && fresh(heap.keyTable)
      invariant heap.Full() && heap.cmp == cmp && Ordered(cmp, heap.S())
                && multiset(Data(heap.S())) == multiset(xs[..i])
    {
      var key := heap.Insert(xs[i]);
      assert xs[..i + 1] == xs[..i] + [xs[i]];
    }
    assert xs[..|xs|] == xs;
  }

  method PopAll<T(!new)>(heap: Heap<T>) returns (ys: seq<T>)
    requires heap.Valid() && Ordered(heap.cmp, heap.S())
    modifies heap, heap.slots, heap.keyTable
    ensures Sorted(heap.cmp, ys) && multiset(ys) == old(multiset(Data(heap.S())))
  {
    ys := [];
    ghost var all := multiset(Data(heap.S()));
    while heap.size > 0
      invariant heap.slots == old(heap.slots) && heap.keyTable == old(heap.keyTable)
      invariant heap.Valid() && Ordered(heap.cmp, heap.S()) && Sorted(heap.cmp, ys)
      invariant AllBelow(heap.cmp, ys, multiset(Data(heap.S()))) && multiset(ys) + multiset(Data(heap.S())) == all
      decreases heap.size
    {
      ghost var bag := multiset(Data(heap.S()));
      var top := heap.Pop();
      PopStep(heap.cmp, ys, bag, top.value);
      ys := ys + [top.value];
    }
    assert Data(heap.S()) == [];
  }

  function Minus(a: int, b: int): int { a - b }

  // Entries that come in heap order stay where they are put, under keys that count
  // up.
  method InsertInOrder(cmp: (int, int) -> int, xs: seq<int>) returns (heap: Heap<int>)
    requires IsComparator(cmp) && |xs| < HEAP_DEFAULT_SIZE
    requires forall i :: 0 < i < |xs| ==> cmp(xs[Parent(i)], xs[i]) <= 0
    ensures fresh(heap) && fresh(heap.slots) && fresh(heap.keyTable) && heap.Full() && heap.cmp == cmp
    ensures Ordered(cmp, heap.S()) && heap.S() == Filled(xs, HEAP_DEFAULT_SIZE)
  {
    heap := new Heap<int>(cmp);
    for i := 0 to |xs|
      invariant fresh(heap) && fresh(heap.slots) && fresh(heap.keyTable) && heap.slots.Length == HEAP_DEFAULT_SIZE
      invariant heap.Full() && heap.cmp == cmp && Ordered(cmp, heap.S())
      invariant heap.nextKey == i && heap.S() == Filled(xs[..i], HEAP_DEFAULT_SIZE)
    {
      assert xs[..i + 1] == xs[..i] + [xs[i]];
      assert i > 0 ==> cmp(xs[Parent(i)], xs[i]) <= 0;
      InsertNext(heap, xs[..i], xs[i]);
    }
    assert xs[..|xs|] == xs;
  }

  method InsertNext(heap: Heap<int>, ghost xs: seq<int>, x: int)
    requires heap.Full() && heap.slots.Length == HEAP_DEFAULT_SIZE && |xs| + 1 < HEAP_DEFAULT_SIZE
    requires heap.nextKey == |xs| && heap.S() == Filled(xs, HEAP_DEFAULT_SIZE) && Ordered(heap.cmp, heap.S())
    requires |xs| > 0 ==> heap.cmp(xs[Parent(|xs|)], x) <= 0
    modifies heap, heap.slots, heap.keyTable
    ensures heap.Full() && heap.slots.Length == HEAP_DEFAULT_SIZE && Ordered(heap.cmp, heap.S())
    ensures heap.nextKey == |xs| + 1 && heap.S() == Filled(xs + [x], HEAP_DEFAULT_SIZE)
    ensures (heap.slots == old(heap.slots) || fresh(heap.slots))
            && (heap.keyTable == old(heap.keyTable) || fresh(heap.keyTable))
  {
    FilledNext(xs, x, HEAP_DEFAULT_SIZE);
    assert heap.S().a[..|xs|] == Filled(xs, HEAP_DEFAULT_SIZE).a[..|xs|];
    var key := heap.Insert(x);
  }

  // Inserting 0, 10, 1, 11, 12, 2, 3 and erasing 11 puts a heap out of order: the
  // last entry, 3, ends up below 10.
  method ErasingDisorders() returns (heap: Heap<int>)
    ensures fresh(heap) && heap.Full() && heap.cmp == Minus && !Ordered(heap.cmp, heap.S())
  {
    heap := InsertInOrder(Minus, [0, 10, 1, 11, 12, 2, 3]);
    ghost var s := heap.S();
    assert s.table[3] == 3 && s.a[1].data == Some(10) && s.a[3].data == Some(11) && s.a[6].data == Some(3);
    var found := heap.Erase(3);
  }

  // Inserting everything and popping until nothing is left sorts.
  method HeapSort<T(!new)>(cmp: (T, T) -> int, xs: seq<T>) returns (ys: seq<T>)
    requires IsComparator(cmp)
    ensures Sorted(cmp, ys) && multiset(ys) == multiset(xs)
  {
    var heap := InsertAll(cmp, xs);
    ys := PopAll(heap);
  }
}
