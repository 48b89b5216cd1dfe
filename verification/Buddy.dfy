module BuddyAllocator {
  import opened BuddyModel
  import Bytes
  import opened Options
  import opened Powers

  const MIN_SIZE := 4

  // t is s with n of its bytes, from src on, written over those from dst on.
  ghost predicate Copied(s: seq<bv8>, t: seq<bv8>, dst: nat, src: nat, n: nat) {
    && dst + n <= |s| && src + n <= |s|
    && t == s[..dst] + s[src..src + n] + s[dst + n..]
  }

  class Buddy {
    const poolSize: nat
    const minSize: nat
    const maxOrder: nat
    const minOrder: nat
    const treeSize: nat
    const tree: array<State>
    const pool: array<bv8>

    ghost predicate Sizes()
    {
      && minOrder < maxOrder < 30 && poolSize == Pow2(maxOrder) && minSize == Pow2(minOrder)
      && treeSize == tree.Length == 2 * Pow2(maxOrder - minOrder) && pool.Length == poolSize
      && tree as object != pool as object
    }

    ghost predicate Valid()
      reads this, tree
    {
      Sizes() && Inv(tree[..], maxOrder, minOrder)
    }

    ghost function Blocks(): set<(nat, nat)>
      reads tree
    {
      Live(tree[..], maxOrder)
    }

    // The macros agree with the geometry of the tree.
    lemma FromIndex(index: nat)
      requires Sizes() && 1 <= index < treeSize
      ensures Log2(index) <= maxOrder - minOrder
      ensures poolSize / Pow2(ILog2(index)) == Size(maxOrder, index)
      ensures poolSize / Pow2(ILog2(index)) * (index - Pow2(ILog2(index))) == Shift(maxOrder, index)
    {
      Log2Bounds(index);
      if Log2(index) > maxOrder - minOrder { Pow2Mono(maxOrder - minOrder + 1, Log2(index)); }
      SizeLimit();
      Pow2Of31();
      Pow2Mono(maxOrder - minOrder, 30);
      ILog2IsLog2(index);
      MacroSize(maxOrder, index);
      MacroShift(maxOrder, index);
      Division(poolSize, Pow2(Log2(index)), Size(maxOrder, index), 0);
    }

    method SizeFromIndex(index: nat) returns (size: nat)
      requires Sizes() && 1 <= index < treeSize
      ensures Log2(index) <= maxOrder - minOrder && size == Size(maxOrder, index)
    {
      FromIndex(index);
      size := poolSize / Shl1(ILog2(index));
    }

    method ShiftFromIndex(index: nat) returns (shift: nat)
      requires Sizes() && 1 <= index < treeSize
      ensures Log2(index) <= maxOrder && shift == Shift(maxOrder, index)
    {
      FromIndex(index);
      shift := poolSize / Shl1(ILog2(index)) * (index - Shl1(ILog2(index)));
    }

    // A block just taken turns the blocks above it full where both halves are.
    method MarkFull(taken: nat)
      requires Sizes() && Marking(tree[..], maxOrder, minOrder, taken)
      modifies tree
      ensures Inv(tree[..], maxOrder, minOrder)
      ensures forall k :: 1 <= k < treeSize ==> (tree[k] == Used <==> old(tree[k]) == Used)
    {
      var index: nat := taken;
      while index > 1
        invariant 1 <= index && Marking(tree[..], maxOrder, minOrder, index)
        invariant forall k :: 1 <= k < treeSize ==> (tree[k] == Used <==> old(tree[k]) == Used)
      {
        MarkOk(tree[..], maxOrder, minOrder, index);
        var left := index / 2 * 2;
        var right := left + 1;
        if (tree[left] == Used || tree[left] == Full) && (tree[right] == Used || tree[right] == Full) {
          assert tree[index / 2] == Split;
          ghost var t := tree[..];
          index := index / 2;
          tree[index] := Full;
          assert tree[..] == t[index := Full];
          continue;
        }
        return;
      }
      MarkOk(tree[..], maxOrder, minOrder, index);
    }

    // The block the search turns to after `index`: its buddy on the right, or
    // that of the nearest block above it that is a left one. None if the end of
    // the pool is reached.
    method NextIndex(from: nat) returns (next: Option<nat>)
      requires Sizes() && 1 <= from < treeSize && SplitPath(tree[..], from)
      ensures next.None? ==> Log2(from) <= maxOrder && Shift(maxOrder, from) + Size(maxOrder, from) == Pow2(maxOrder)
      ensures next.Some? ==>
                && 1 <= next.value < treeSize && SplitPath(tree[..], next.value)
                && Log2(next.value) <= Log2(from) <= maxOrder
                && Shift(maxOrder, next.value) == Shift(maxOrder, from) + Size(maxOrder, from)
    {
      var index: nat := from;
      Level(tree[..], maxOrder, minOrder, index);
      while index % 2 == 1 && index > 1
        invariant 1 <= index <= from && SplitPath(tree[..], index) && Log2(index) <= Log2(from)
        invariant Shift(maxOrder, index) + Size(maxOrder, index) == Shift(maxOrder, from) + Size(maxOrder, from)
      {
        Halves(maxOrder, index / 2);
        index := index / 2;
      }
      if index == 1 {
        return None;
      }
      Halves(maxOrder, index / 2);
      Level(tree[..], maxOrder, minOrder, index / 2);
      assert (index + 1) / 2 == index / 2;
      return Some(index + 1);
    }

    // The size a request is served with.
    ghost function Rounded(nbytes: nat): (size: nat)
      requires nbytes >= 1
      ensures minSize > 0 ==> size > 0
    {
      if nbytes == INT_LIMIT then minSize else Pow2(Order(nbytes))
    }

    ghost function Order(nbytes: nat): nat
      requires nbytes >= 1
    {
      if RoundUpOrder(nbytes) < minOrder then minOrder else RoundUpOrder(nbytes)
    }

    // The block for a request is large enough just for requests that fit an int.
    lemma RoundedIsEnough(nbytes: nat)
      requires Sizes() && 1 <= nbytes <= INT_LIMIT
      ensures nbytes <= Rounded(nbytes) <==> nbytes < INT_LIMIT
      ensures nbytes < INT_LIMIT ==> (nbytes <= poolSize <==> Order(nbytes) <= maxOrder)
    {
      var e := RoundUpOrder(nbytes);
      LeastOrder(nbytes, maxOrder);
      if e < minOrder { Pow2Mono(e + 1, minOrder); }
      PoolIsInt();
    }

    lemma PoolIsInt()
      requires Sizes()
      ensures minSize < poolSize <= 0x2000_0000
    {
      Pow2Of31();
      Pow2Mono(maxOrder, 29);
      Pow2Mono(minOrder + 1, maxOrder);
    }

    // What becomes of the rounded request after both casts.
    lemma RoundedOrder(nbytes: nat)
      requires Sizes() && 1 <= nbytes <= INT_LIMIT && ToInt(nbytes) <= poolSize
      ensures var size := ToSize(RoundUp(nbytes));
              Rounded(nbytes) == if ToInt(size) < minSize then minSize else size
    {
      IntThroughSize(RoundUp(nbytes));
      if nbytes < INT_LIMIT {
        PoolIsInt();
        var e := RoundUpOrder(nbytes);
        ToIntSmall(nbytes);
        if e < minOrder { Pow2Mono(e + 1, minOrder); } else { Pow2Mono(minOrder, e); }
      }
    }

    // The size test casts to int. Which requests larger than the pool it lets
    // through, of all that a size_t can hold.
    lemma SizeTest(nbytes: nat)
      requires Sizes() && nbytes < SIZE_LIMIT
      ensures var low := nbytes % 0x1_0000_0000;
              nbytes > poolSize && ToInt(nbytes) <= poolSize
              <==> nbytes >= INT_LIMIT && (low <= poolSize || low >= INT_LIMIT)
    {
      PoolIsInt();
      if nbytes < 0x1_0000_0000 { Division(nbytes, 0x1_0000_0000, 0, nbytes); }
    }

    // The least of them is served with a block of the smallest size.
    lemma HugeRequest()
      requires Sizes()
      ensures 0x8000_0000 > poolSize && ToInt(0x8000_0000) <= poolSize && Rounded(0x8000_0000) == minSize
    {
      SizeTest(0x8000_0000);
    }

    // Moving a block's contents stays within the new block just if the request
    // fits an int or the old block is as small as they come.
    lemma CopyFits(memSize: nat, nbytes: nat)
      requires Sizes() && 1 <= nbytes <= INT_LIMIT && memSize <= poolSize
      ensures Bytes.Min(memSize, nbytes) <= Rounded(nbytes) <==> nbytes < INT_LIMIT || memSize <= minSize
    {
      RoundedIsEnough(nbytes);
      PoolIsInt();
    }

    // The unused block at `index` has the size wanted.
    method Take(index: nat) returns (mem: nat)
      requires Sizes() && Descending(tree[..], maxOrder, minOrder, index)
      modifies tree
      ensures Valid() && Log2(index) <= maxOrder && mem == Shift(maxOrder, index)
      ensures forall k :: 1 <= k < treeSize ==> (tree[k] == Used <==> old(tree[k]) == Used || k == index)
    {
      TakeOk(tree[..], maxOrder, minOrder, index);
      ghost var t := tree[..];
      tree[index] := Used;
      assert tree[..] == t[index := Used];
      mem := ShiftFromIndex(index);
      MarkFull(index);
    }

    // Depth-first search for the leftmost free block of the size wanted,
    // splitting larger unused blocks on the way down. The loop's
    // guard never fails: the search stays inside the tree.
    method Search(mallocSize: nat, ghost k: nat) returns (r: Option<nat>, ghost found: nat)
      requires Valid() && minOrder <= k <= maxOrder && mallocSize == Pow2(k)
      modifies tree
      ensures Valid()
      ensures r.None? ==> tree[..] == old(tree[..]) && SearchedTo(tree[..], maxOrder, k, poolSize)
      ensures r.Some? ==>
                && 1 <= found < treeSize && Log2(found) == maxOrder - k && r.value == Shift(maxOrder, found)
                && Untouched(old(Blocks()), (r.value, mallocSize))
                && Blocks() == old(Blocks()) + {(r.value, mallocSize)}
                && NoRoomBefore(old(Blocks()), maxOrder, mallocSize, r.value)
    {
      ghost var t0, p, m, splitting := tree[..], maxOrder, minOrder, false;
      var index: nat := 1;
      r, found := None, 0;
      while index < treeSize
        invariant index < treeSize && Searching(t0, tree[..], p, m, k, index, splitting)
        decreases Pow2(p) - Shift(p, index), p - k - Log2(index)
      {
        var memSize := SizeFromIndex(index);
        SizeOrder(p, k, index);
        InPool(p, index);
        ghost var t := tree[..];
        if tree[index] == Unused {
          SearchFound(t0, t, p, m, k, index, splitting);
          if memSize == mallocSize {
            var mem := Take(index);
            LiveAdd(t0, tree[..], p, index);
            NoneFreeBefore(t0, p, m, k, mem);
            return Some(mem), index;
          } else if memSize > mallocSize {
            SearchSplit(t0, t, p, m, k, index, splitting);
            tree[index] := Split;
            assert tree[..] == t[index := Split];
            index, splitting := index * 2, true;
          } else {
            // Blocks smaller than the request are never reached.
            assert false;
          }
        } else if tree[index] == Used || tree[index] == Full || memSize <= mallocSize {
          SearchSkip(t0, t, p, m, k, index, splitting);
          var next := NextIndex(index);
          if next.None? {
            return None, 0;
          }
          index, splitting := next.value, false;
        } else {
          SearchDown(t0, t, p, m, k, index, splitting);
          index, splitting := index * 2, false;
        }
      }
    }

    ghost function ServedOrder(nbytes: nat): nat
      requires nbytes >= 1
    {
      if nbytes == INT_LIMIT then minOrder else Order(nbytes)
    }

    // The size test compares orders.
    lemma RequestOrder(nbytes: nat)
      requires Sizes() && 1 <= nbytes <= INT_LIMIT
      ensures var k := ServedOrder(nbytes);
              && minOrder <= k && Rounded(nbytes) == Pow2(k)
              && (ToInt(nbytes) <= poolSize <==> k <= maxOrder) && (Rounded(nbytes) <= poolSize <==> k <= maxOrder)
    {
      var k := ServedOrder(nbytes);
      RoundedIsEnough(nbytes);
      PoolIsInt();
      if nbytes < INT_LIMIT { ToIntSmall(nbytes); }
      if k <= maxOrder { Pow2Mono(k, maxOrder); } else { Pow2Mono(maxOrder + 1, k); }
    }

    // The size to look for, none if the request is larger than the pool.
    method RequestSize(nbytes: nat) returns (size: Option<nat>, ghost k: nat)
      requires Sizes() && 1 <= nbytes <= INT_LIMIT
      ensures size.None? <==> Rounded(nbytes) > poolSize
      ensures size.Some? ==> size.value == Rounded(nbytes) == Pow2(k) && minOrder <= k <= maxOrder
    {
      var mallocSize := ToSize(RoundUp(nbytes));
      RequestOrder(nbytes);
      k := ServedOrder(nbytes);
      if ToInt(nbytes) > poolSize {
        return None, 0;
      }
      RoundedOrder(nbytes);
      if ToInt(mallocSize) < minSize {
        mallocSize := minSize;
      }
      size := Some(mallocSize);
    }

    // A shift by 32 or more, which rounding a larger request takes, is undefined.
    method Alloc(nbytes: nat) returns (r: Option<nat>)
      requires Valid() && 1 <= nbytes <= INT_LIMIT
      modifies tree
      ensures Valid()
      ensures r.None? ==> tree[..] == old(tree[..])
      ensures r.None? <==> NoRoom(old(Blocks()), maxOrder, Rounded(nbytes))
      ensures r.Some? ==> FreeBlock(old(Blocks()), maxOrder, r.value, Rounded(nbytes))
      ensures r.Some? ==> Blocks() == old(Blocks()) + {(r.value, Rounded(nbytes))}
      ensures r.Some? ==> NoRoomBefore(old(Blocks()), maxOrder, Rounded(nbytes), r.value)
    {
      var size;
      ghost var k, found;
      size, k := RequestSize(nbytes);
      if size.None? {
        TooLarge(Blocks(), maxOrder, Rounded(nbytes));
        return None;
      }
      r, found := Search(size.value, k);
      if r.None? {
        NoneFree(tree[..], maxOrder, minOrder, k);
      } else {
        FoundIsFree(old(Blocks()), maxOrder, k, found);
      }
    }

    // Merges a freed block with its buddy as long as both are unused.
    method Merge(index: nat)
      requires Sizes() && Loosened(tree[..], maxOrder, minOrder, index) && tree[index] == Unused
      modifies tree
      ensures Merged(tree[..], maxOrder, minOrder, index) || (Valid() && index > 1 && tree[index / 2] == Unused)
      ensures forall k :: 1 <= k < treeSize ==> (tree[k] == Used <==> old(tree[k]) == Used)
    {
      var loop: nat := index;
      while loop > 1
        invariant 1 <= loop <= index && Loosened(tree[..], maxOrder, minOrder, loop)
        invariant forall k :: 1 <= k < treeSize ==> (tree[k] == Used <==> old(tree[k]) == Used)
        invariant loop < index ==> tree[index / 2] == Unused && (loop > 1 ==> tree[loop / 2] == Split)
      {
        var left := loop / 2 * 2;
        var right := left + 1;
        if tree[left] == Unused && tree[right] == Unused {
          ghost var t := tree[..];
          MergeOk(t, maxOrder, minOrder, loop);
          loop := loop / 2;
          tree[loop] := Unused;
          assert tree[..] == t[loop := Unused];
          continue;
        }
        break;
      }
      if loop < index { MergedDone(tree[..], maxOrder, minOrder, loop); }
    }

    // Turns the full blocks above a freed one back into split ones.
    method Unfill(index: nat)
      requires Sizes() && 1 <= index < treeSize
      requires Merged(tree[..], maxOrder, minOrder, index) || (Valid() && index > 1 && tree[index / 2] == Unused)
      modifies tree
      ensures Valid()
      ensures forall k :: 1 <= k < treeSize ==> (tree[k] == Used <==> old(tree[k]) == Used)
    {
      var loop: nat := index;
      while loop > 1
        invariant 1 <= loop <= index
        invariant Merged(tree[..], maxOrder, minOrder, loop)
                  || (loop == index > 1 && Valid() && tree[index / 2] == Unused)
        invariant forall k :: 1 <= k < treeSize ==> (tree[k] == Used <==> old(tree[k]) == Used)
      {
        ghost var t, below := tree[..], loop;
        loop := loop / 2;
        if tree[loop] == Full {
          UnfillOk(t, maxOrder, minOrder, below);
          tree[loop] := Split;
          assert tree[..] == t[loop := Split];
          continue;
        }
        if Merged(t, maxOrder, minOrder, below) { MergedDone(t, maxOrder, minOrder, below); }
        return;
      }
      MergedDone(tree[..], maxOrder, minOrder, 1);
    }

    // The index of the live block at `offset`, halving the pool on the way down.
    method FindUsed(offset: nat, ghost target: nat) returns (index: nat)
      requires Valid() && 1 <= target < treeSize && tree[target] == Used
      requires Log2(target) <= maxOrder && Shift(maxOrder, target) == offset
      ensures index == target
    {
      index := 1;
      var step, current := poolSize, 0;
      UnderRoot(target);
      while tree[index] != Used
        invariant 1 <= index <= target && Under(target, index)
        invariant Log2(index) <= maxOrder && step == Size(maxOrder, index) && current == Shift(maxOrder, index)
        decreases target - index
      {
        Half(maxOrder, index, target);
        Halves(maxOrder, index);
        step := step / 2;
        index := index * 2;
        if offset >= current + step {
          current := current + step;
          index := index + 1;
        }
        Nested(maxOrder, target, index);
      }
      if index != target { UnusedBelow(tree[..], maxOrder, minOrder, index, target); }
    }

    // The offset of a live block is the whole handle: its size follows.
    method Free(offset: nat, ghost blockSize: nat)
      requires Valid() && (offset, blockSize) in Blocks()
      modifies tree
      ensures Valid() && Blocks() == old(Blocks()) - {(offset, blockSize)}
    {
      ghost var p, m, t0 := maxOrder, minOrder, tree[..];
      ghost var target := LiveIndex(t0, p, offset, blockSize);
      var index := FindUsed(offset, target);
      ReleaseOk(t0, p, m, index);
      tree[index] := Unused;
      assert tree[..] == t0[index := Unused];
      Merge(index);
      Unfill(index);
      LiveRemove(t0, tree[..], p, m, index);
    }

    // With every block freed the tree is as it was created.
    lemma AllFreed()
      requires Valid() && Blocks() == {}
      ensures forall i :: 1 <= i < treeSize ==> tree[i] == Unused
    {
      var t := tree[..];
      forall i | 1 <= i < |t|
        ensures t[i] != Used
      {
        Level(t, maxOrder, minOrder, i);
        LiveHas(t, maxOrder, i);
      }
      NothingUsed(t, maxOrder, minOrder);
    }

    // In whatever order the live blocks are freed, the tree is in the end as it
    // was created.
    method FreeAll(order: seq<(nat, nat)>)
      requires Valid() && (forall b :: b in order <==> b in Blocks())
      requires forall i, j :: 0 <= i < j < |order| ==> order[i] != order[j]
      modifies tree
      ensures Valid() && forall i :: 1 <= i < treeSize ==> tree[i] == Unused
    {
      for n := 0 to |order|
        invariant Valid() && forall b :: b in order[n..] <==> b in Blocks()
      {
        assert order[n..] == [order[n]] + order[n + 1..];
        Free(order[n].0, order[n].1);
      }
      assert Blocks() == {};
      AllFreed();
    }

    // Live blocks are disjoint, and aligned powers of two inside the pool.
    lemma BlocksApart(a: (nat, nat), b: (nat, nat))
      requires Valid() && a in Blocks() && b in Blocks()
      ensures a != b ==> !Overlap(a, b) && a.0 != b.0
      ensures a.1 > 0 && a.0 % a.1 == 0 && a.0 + a.1 <= poolSize
      ensures exists k: nat :: k <= maxOrder && a.1 == Pow2(k)
    {
      var t := tree[..];
      var i :| 1 <= i < |t| && t[i] == Used && Log2(i) <= maxOrder && a == (Shift(maxOrder, i), Size(maxOrder, i));
      var j :| 1 <= j < |t| && t[j] == Used && Log2(j) <= maxOrder && b == (Shift(maxOrder, j), Size(maxOrder, j));
      if i != j { LiveApart(t, maxOrder, minOrder, i, j); }
      Aligned(maxOrder, i);
      InPool(maxOrder, i);
      MultipleIsMod(a.0, a.1);
      assert a.1 == Pow2(maxOrder - Log2(i));
    }

    // The size of the live block at `offset`.
    method BlockSize(offset: nat, ghost blockSize: nat) returns (size: nat)
      requires Valid() && (offset, blockSize) in Blocks()
      ensures size == blockSize
    {
      ghost var target := LiveIndex(tree[..], maxOrder, offset, blockSize);
      var index := FindUsed(offset, target);
      size := SizeFromIndex(index);
    }

    // Copies a stretch of the pool to another that it does not share bytes with.
    method MemCpy(dst: nat, src: nat, n: nat)
      requires dst + n <= pool.Length && src + n <= pool.Length && (dst + n <= src || src + n <= dst || n == 0)
      modifies pool
      ensures Copied(old(pool[..]), pool[..], dst, src, n)
    {
      for i := 0 to n
        invariant forall j :: 0 <= j < pool.Length ==>
                    pool[j] == if dst <= j < dst + i then old(pool[src + (j - dst)]) else old(pool[j])
      {
        pool[dst + i] := pool[src + i];
      }
    }

    // Hands out a block of at least `nbytes` bytes that starts with the bytes
    // of the live block at `mem`, as far as both reach.
    method AllocCopy(mem: nat, nbytes: nat, ghost memSize: nat) returns (r: Option<nat>)
      requires Valid() && 1 <= nbytes < INT_LIMIT && (mem, memSize) in Blocks()
      modifies tree, pool
      ensures Valid()
      ensures r.None? <==> NoRoom(old(Blocks()), maxOrder, Rounded(nbytes))
      ensures r.Some? ==> FreeBlock(old(Blocks()), maxOrder, r.value, Rounded(nbytes))
      ensures Blocks() == old(Blocks()) + if r.Some? then {(r.value, Rounded(nbytes))} else {}
      ensures r.Some? ==> Copied(old(pool[..]), pool[..], r.value, mem, Bytes.Min(memSize, nbytes))
      ensures r.None? ==> pool[..] == old(pool[..])
    {
      var size := BlockSize(mem, memSize);
      BlocksApart((mem, size), (mem, size));
      r := Alloc(nbytes);
      if r.Some? {
        assert !Overlap((mem, size), (r.value, Rounded(nbytes)));
        RoundedIsEnough(nbytes);
        MemCpy(r.value, mem, Bytes.Min(size, nbytes));
      }
    }

    // The new block is found while the old one is still held; the old one is
    // given back even if no new one was found.
    method Realloc(mem: nat, nbytes: nat, ghost memSize: nat) returns (r: Option<nat>)
      requires Valid() && nbytes < INT_LIMIT && (mem, memSize) in Blocks()
      modifies tree, pool
      ensures Valid()
      ensures nbytes == 0 ==> r.None?
      ensures nbytes > 0 ==> (r.None? <==> NoRoom(old(Blocks()), maxOrder, Rounded(nbytes)))
      ensures r.Some? ==> FreeBlock(old(Blocks()), maxOrder, r.value, Rounded(nbytes))
      ensures Blocks() == old(Blocks()) - {(mem, memSize)} + if r.Some? then {(r.value, Rounded(nbytes))} else {}
      ensures r.Some? ==> Copied(old(pool[..]), pool[..], r.value, mem, Bytes.Min(memSize, nbytes))
      ensures r.None? ==> pool[..] == old(pool[..])
    {
      BlocksApart((mem, memSize), (mem, memSize));
      r := None;
      if nbytes > 0 {
        r := AllocCopy(mem, nbytes, memSize);
      }
      Free(mem, memSize);
    }

    constructor Create(realSize: nat, realMinSize: nat, treeSize: nat, ghost max: nat, ghost min: nat)
      requires min < max < 30 && realSize == Pow2(max) && realMinSize == Pow2(min)
      requires treeSize == 2 * Pow2(max - min)
      ensures Valid() && Blocks() == {} && poolSize == realSize && minSize == realMinSize && fresh(tree) && fresh(pool)
    {
      Orders(realSize, max);
      Orders(realMinSize, min);
      poolSize, minSize := realSize, realMinSize;
      maxOrder, minOrder := ILog2(realSize), ILog2(realMinSize);
      this.treeSize := treeSize;
      tree := new State[treeSize](_ => Unused);
      pool := new bv8[realSize](_ => 0);
    }

    static lemma Orders(n: nat, k: nat)
      requires n == Pow2(k) && k < 63
      ensures ILog2(n) == k
    {
      SizeLimit();
      Pow2Mono(k, 63);
      ILog2IsLog2(n);
      Log2Unique(n, k);
    }
  }

  lemma TreeSize(max: nat, min: nat)
    requires min <= max
    ensures Pow2(max) * 2 / Pow2(min) == 2 * Pow2(max - min)
  {
    Pow2Sum(min, max - min);
    Pow2Sum(min, max - min + 1);
    Division(Pow2(max + 1), Pow2(min), Pow2(max - min + 1), 0);
  }

  // Twice the pool fits an int just for sizes up to 2^29.
  lemma TreeFits(size: nat)
    requires 1 <= size <= 0x4000_0000
    ensures RoundUp(size) * 2 < INT_LIMIT <==> size <= 0x2000_0000
  {
    Pow2Of31();
    LeastOrder(size, 29);
    if size > 0x2000_0000 { Pow2Mono(30, RoundUpOrder(size)); } else { Pow2Mono(RoundUpOrder(size), 29); }
  }

  lemma InitSizes(size: nat, minimum: nat, max: nat, min: nat)
    requires 1 <= size <= 0x2000_0000 && 1 <= minimum <= INT_LIMIT
    requires max == RoundUpOrder(size) && min == RoundUpOrder(minimum)
    ensures var pool, least := ToSize(RoundUp(size)), ToSize(RoundUp(minimum));
            && max < 30 && pool == Pow2(max) && size <= pool < 2 * size
            && (max <= min <==> pool <= least) && (min < max ==> least == Pow2(min) >= minimum)
  {
    Pow2Of31();
    LeastOrder(size, 29);
    LeastOrder(minimum, 30);
    Pow2Mono(max, 29);
    if max <= min { Pow2Mono(max, min); } else { Pow2Mono(min + 1, max); }
  }

  // Null if the pool would not be larger than its smallest block.
  method Init(size: nat, minAllocSize: nat) returns (b: Buddy?)
    requires 1 <= size <= 0x2000_0000 && minAllocSize <= INT_LIMIT
    ensures var minimum := if minAllocSize < 4 then 4 else minAllocSize;
            b == null <==> RoundUpOrder(size) <= RoundUpOrder(minimum)
    ensures b != null ==> b.Valid() && b.Blocks() == {} && fresh(b) && fresh(b.tree) && fresh(b.pool)
    ensures b != null ==> size <= b.poolSize < 2 * size && minAllocSize <= b.minSize
  {
    var minimum := if minAllocSize < MIN_SIZE then MIN_SIZE else minAllocSize;
    ghost var max, min := RoundUpOrder(size), RoundUpOrder(minimum);
    InitSizes(size, minimum, max, min);
    var realSize := ToSize(RoundUp(size));
    var realMinSize := ToSize(RoundUp(minimum));
    if realMinSize >= realSize {
      return null;
    }
    TreeSize(max, min);
    b := new Buddy.Create(realSize, realMinSize, realSize * 2 / realMinSize, max, min);
  }
}
