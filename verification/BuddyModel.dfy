// The index tree of the buddy allocator: what its four states promise, and
// which part of the pool each index stands for.
module BuddyModel {
  import opened Powers

  datatype State = Unused | Used | Split | Full

  // ------------------------------------------------------------ index geometry

  // Bytes of the block at index i of a pool of 2^p bytes.
  ghost function Size(p: nat, i: nat): nat
    requires 1 <= i && Log2(i) <= p
  {
    Pow2(p - Log2(i))
  }

  // Where in the pool that block starts.
  ghost function Shift(p: nat, i: nat): nat
    requires 1 <= i && Log2(i) <= p
  {
    if i == 1 then 0 else Shift(p, i / 2) + if i % 2 == 1 then Size(p, i) else 0
  }

  // i is a or lies below it.
  ghost predicate Under(i: nat, a: nat) {
    i == a || (i > a && Under(i / 2, a))
  }

  ghost predicate Disjoint(p: nat, i: nat, j: nat)
    requires 1 <= i && Log2(i) <= p && 1 <= j && Log2(j) <= p
  {
    Shift(p, i) + Size(p, i) <= Shift(p, j) || Shift(p, j) + Size(p, j) <= Shift(p, i)
  }

  lemma Halves(p: nat, i: nat)
    requires 1 <= i && Log2(i) < p
    ensures Log2(2 * i) == Log2(2 * i + 1) == Log2(i) + 1
    ensures Size(p, i) == 2 * Size(p, 2 * i) == 2 * Size(p, 2 * i + 1)
    ensures Shift(p, 2 * i) == Shift(p, i) && Shift(p, 2 * i + 1) == Shift(p, i) + Size(p, 2 * i)
  {
    assert (2 * i) / 2 == i && (2 * i + 1) / 2 == i;
  }

  lemma {:induction false} Nested(p: nat, i: nat, a: nat)
    requires 1 <= a && Under(i, a) && Log2(i) <= p
    ensures Log2(a) <= Log2(i)
    ensures Shift(p, a) <= Shift(p, i) && Shift(p, i) + Size(p, i) <= Shift(p, a) + Size(p, a)
  {
    if i != a {
      Nested(p, i / 2, a);
      Halves(p, i / 2);
    }
  }

  // Two blocks on one level share no byte.
  lemma {:induction false} Apart(p: nat, i: nat, j: nat)
    requires 1 <= i && 1 <= j && i != j && Log2(i) == Log2(j) <= p
    ensures Disjoint(p, i, j)
  {
    Halves(p, i / 2);
    Halves(p, j / 2);
    if i / 2 != j / 2 {
      Apart(p, i / 2, j / 2);
    }
  }

  // Two blocks share a byte only if one contains the other.
  lemma {:induction false} Separate(p: nat, i: nat, j: nat)
    requires 1 <= i && Log2(i) <= p && 1 <= j && Log2(j) <= p
    ensures Under(i, j) || Under(j, i) || Disjoint(p, i, j)
    decreases i + j
  {
    if Log2(i) == Log2(j) {
      if i != j { Apart(p, i, j); }
    } else if Log2(i) > Log2(j) {
      Halves(p, i / 2);
      Separate(p, i / 2, j);
      if Under(j, i / 2) { LowerLevel(j, i / 2); }
    } else {
      Halves(p, j / 2);
      Separate(p, i, j / 2);
      if Under(i, j / 2) { LowerLevel(i, j / 2); }
    }
  }

  lemma {:induction false} LowerLevel(i: nat, a: nat)
    requires 1 <= a && 1 <= i && Under(i, a) && Log2(i) <= Log2(a)
    ensures i == a
  {
    if i > a {
      Nested(Log2(i), i / 2, a);
    }
  }

  lemma {:induction false} UnderTrans(i: nat, c: nat, a: nat)
    requires Under(i, c) && Under(c, a)
    ensures Under(i, a)
  {
    if i != c { UnderTrans(i / 2, c, a); }
  }

  lemma ShiftStep(s: nat, h: nat, q: nat, b: nat, up: nat)
    requires q <= h && b < 2 && up == (2 * s) * (h - q)
    ensures up + (if b == 1 then s else 0) == s * (2 * h + b - 2 * q)
  {
  }

  // The block size and offset as the allocator computes them from an index.
  lemma MacroSize(p: nat, i: nat)
    requires 1 <= i && Log2(i) <= p
    ensures Size(p, i) * Pow2(Log2(i)) == Pow2(p)
  {
    Pow2Sum(p - Log2(i), Log2(i));
  }

  lemma {:induction false} MacroShift(p: nat, i: nat)
    requires 1 <= i && Log2(i) <= p
    ensures 0 <= i - Pow2(Log2(i)) && Shift(p, i) == Size(p, i) * (i - Pow2(Log2(i)))
  {
    Log2Bounds(i);
    if i > 1 {
      MacroShift(p, i / 2);
      Halves(p, i / 2);
      ShiftStep(Size(p, i), i / 2, Pow2(Log2(i / 2)), i % 2, Shift(p, i / 2));
    }
  }

  lemma {:induction false} UnderRoot(i: nat)
    requires i >= 1
    ensures Under(i, 1)
  {
    if i > 1 { UnderRoot(i / 2); }
  }

  lemma InPool(p: nat, i: nat)
    requires 1 <= i && Log2(i) <= p
    ensures Shift(p, i) + Size(p, i) <= Pow2(p)
  {
    UnderRoot(i);
    Nested(p, i, 1);
  }

  // Blocks are aligned to their size.
  lemma {:induction false} Aligned(p: nat, i: nat)
    requires 1 <= i && Log2(i) <= p
    ensures Multiple(Shift(p, i), Size(p, i))
  {
    if i > 1 {
      Aligned(p, i / 2);
      Halves(p, i / 2);
      MultipleAdd(Shift(p, i / 2), Size(p, i));
    }
  }

  // Every aligned block of 2^k bytes of the pool has an index.
  lemma {:induction false} BlockIndex(p: nat, k: nat, off: nat) returns (i: nat)
    requires k <= p && Multiple(off, Pow2(k)) && off < Pow2(p)
    ensures 1 <= i && Log2(i) == p - k && Size(p, i) == Pow2(k) && Shift(p, i) == off
    decreases p - k
  {
    if k == p {
      return 1;
    }
    var s := Pow2(k);
    MultipleHalf(off, s);
    if Multiple(off, 2 * s) {
      i := BlockIndex(p, k + 1, off);
      Halves(p, i);
      i := 2 * i;
    } else {
      i := BlockIndex(p, k + 1, off - s);
      Halves(p, i);
      i := 2 * i + 1;
    }
  }

  // ------------------------------------------------------------- tree states

  ghost predicate Busy(s: State) { s == Used || s == Full }

  ghost predicate NodeOk(t: seq<State>, i: nat)
    requires 1 <= i < |t|
  {
    if 2 * i + 1 < |t| then
      match t[i]
      case Unused => t[2 * i] == Unused && t[2 * i + 1] == Unused
      case Used => t[2 * i] == Unused && t[2 * i + 1] == Unused
      case Full => Busy(t[2 * i]) && Busy(t[2 * i + 1])
      case Split => !(Busy(t[2 * i]) && Busy(t[2 * i + 1])) && !(t[2 * i] == Unused && t[2 * i + 1] == Unused)
    else
      t[i] == Unused || t[i] == Used
  }

  // A tree over a pool of 2^p bytes whose smallest blocks have 2^m bytes.
  ghost predicate Sized(t: seq<State>, p: nat, m: nat) { m <= p && |t| == 2 * Pow2(p - m) }

  ghost predicate Inv(t: seq<State>, p: nat, m: nat) {
    Sized(t, p, m) && forall i {:trigger NodeOk(t, i)} :: 1 <= i < |t| ==> NodeOk(t, i)
  }

  lemma Level(t: seq<State>, p: nat, m: nat, i: nat)
    requires Sized(t, p, m) && 1 <= i < |t|
    ensures Log2(i) <= p - m
    ensures 2 * i < |t| <==> Log2(i) < p - m
    ensures 2 * i < |t| <==> 2 * i + 1 < |t|
  {
    Log2Bounds(i);
    if Log2(i) > p - m { Pow2Mono(p - m + 1, Log2(i)); }
    if Log2(i) < p - m { Pow2Mono(Log2(i) + 1, p - m); }
  }

  // Below an unused or used block nothing is in use.
  lemma {:induction false} UnusedBelow(t: seq<State>, p: nat, m: nat, i: nat, j: nat)
    requires Inv(t, p, m) && 1 <= i && j < |t| && Under(j, i) && j != i
    requires t[i] == Unused || t[i] == Used
    ensures t[j] == Unused
  {
    if j / 2 != i { UnusedBelow(t, p, m, i, j / 2); }
    assert NodeOk(t, j / 2);
  }

  // Every block that is not unused holds a used one.
  lemma {:induction false} UsedBelow(t: seq<State>, p: nat, m: nat, i: nat) returns (u: nat)
    requires Inv(t, p, m) && 1 <= i < |t| && t[i] != Unused
    ensures 1 <= u < |t| && t[u] == Used && Under(u, i)
    decreases |t| - i
  {
    if t[i] == Used {
      return i;
    }
    assert NodeOk(t, i);
    var c := if t[2 * i] != Unused then 2 * i else 2 * i + 1;
    u := UsedBelow(t, p, m, c);
    UnderTrans(u, c, i);
  }

  // With nothing in use the tree is as it was at first.
  lemma NothingUsed(t: seq<State>, p: nat, m: nat)
    requires Inv(t, p, m) && forall i :: 1 <= i < |t| ==> t[i] != Used
    ensures forall i :: 1 <= i < |t| ==> t[i] == Unused
  {
    forall i | 1 <= i < |t|
      ensures t[i] == Unused
    {
      if t[i] != Unused { var u := UsedBelow(t, p, m, i); }
    }
  }

  // Below a busy block everything is in use.
  lemma {:induction false} BusyBelow(t: seq<State>, p: nat, m: nat, i: nat, j: nat) returns (a: nat)
    requires Inv(t, p, m) && 1 <= i && j < |t| && Under(j, i) && Busy(t[i])
    ensures 1 <= a < |t| && Under(j, a) && Busy(t[a]) && (a == j || t[a] == Used)
  {
    if j == i {
      return i;
    }
    a := BusyBelow(t, p, m, i, j / 2);
    assert NodeOk(t, j / 2);
    if a == j / 2 && t[a] == Full { a := j; }
  }

  // ------------------------------------------------------------- allocation

  // Every block above i is split.
  ghost predicate SplitPath(t: seq<State>, i: nat)
    requires i < |t|
  {
    i <= 1 || (t[i / 2] == Split && SplitPath(t, i / 2))
  }

  ghost predicate Above(i: nat, a: nat) { i != a && Under(i, a) }

  // The search has reached the unused block i, splitting on its way.
  ghost predicate Descending(t: seq<State>, p: nat, m: nat, i: nat) {
    && Sized(t, p, m) && 1 <= i < |t| && t[i] == Unused && SplitPath(t, i)
    && forall k {:trigger NodeOk(t, k)} :: 1 <= k < |t| && !Above(i, k) ==> NodeOk(t, k)
  }

  // Block i has just become busy; the block above it may have to follow.
  ghost predicate Marking(t: seq<State>, p: nat, m: nat, i: nat) {
    && Sized(t, p, m) && 1 <= i < |t| && Busy(t[i]) && SplitPath(t, i)
    && forall k {:trigger NodeOk(t, k)} :: 1 <= k < |t| && k != i / 2 ==> NodeOk(t, k)
  }

  lemma {:induction false} SplitPathFrame(t: seq<State>, t': seq<State>, i: nat)
    requires i < |t| == |t'| && SplitPath(t, i) && forall k :: 0 <= k < i ==> t[k] == t'[k]
    ensures SplitPath(t', i)
  {
    if i > 1 { SplitPathFrame(t, t', i / 2); }
  }

  // The kid of a on the way down to i.
  lemma {:induction false} KidTowards(i: nat, a: nat) returns (c: nat)
    requires 1 <= a && Above(i, a)
    ensures (c == 2 * a || c == 2 * a + 1) && Under(i, c)
  {
    if i / 2 == a { c := i; } else { c := KidTowards(i / 2, a); }
  }

  lemma {:induction false} SplitAbove(t: seq<State>, i: nat, a: nat)
    requires i < |t| && 1 <= a && SplitPath(t, i) && Above(i, a)
    ensures t[a] == Split
  {
    if i / 2 != a { SplitAbove(t, i / 2, a); }
  }

  lemma DescendOk(t: seq<State>, p: nat, m: nat, i: nat)
    requires Descending(t, p, m, i) && 2 * i < |t|
    ensures Descending(t[i := Split], p, m, 2 * i)
  {
    Level(t, p, m, i);
    var t' := t[i := Split];
    SplitPathFrame(t, t', i);
    assert NodeOk(t, i);
    assert (2 * i) / 2 == i;
    forall k | 1 <= k < |t| && !Above(2 * i, k)
      ensures NodeOk(t', k)
    {
      assert Under(2 * i, i);
      assert k == i / 2 ==> Above(i, k);
      if Above(i, k) {
        UnderTrans(2 * i, i, k);
      } else {
        assert NodeOk(t, k);
      }
    }
  }

  lemma TakeOk(t: seq<State>, p: nat, m: nat, i: nat)
    requires Descending(t, p, m, i)
    ensures Marking(t[i := Used], p, m, i)
  {
    var t' := t[i := Used];
    SplitPathFrame(t, t', i);
    forall k | 1 <= k < |t| && k != i / 2
      ensures NodeOk(t', k)
    {
      if Above(i, k) {
        var c := KidTowards(i, k);
        SplitAbove(t, i, k);
        SplitAbove(t, i, c);
      } else {
        assert NodeOk(t, k);
        assert NodeOk(t, i);
      }
    }
  }

  lemma MarkOk(t: seq<State>, p: nat, m: nat, i: nat)
    requires Marking(t, p, m, i)
    ensures i == 1 ==> Inv(t, p, m)
    ensures i > 1 ==> 2 * (i / 2) + 1 < |t|
    ensures i > 1 && Busy(t[2 * (i / 2)]) && Busy(t[2 * (i / 2) + 1]) ==> Marking(t[i / 2 := Full], p, m, i / 2)
    ensures i > 1 && !(Busy(t[2 * (i / 2)]) && Busy(t[2 * (i / 2) + 1])) ==> Inv(t, p, m)
  {
    if i > 1 {
      var h := i / 2;
      Level(t, p, m, h);
      if Busy(t[2 * h]) && Busy(t[2 * h + 1]) {
        var t' := t[h := Full];
        SplitPathFrame(t, t', h);
        forall k | 1 <= k < |t| && k != h / 2
          ensures NodeOk(t', k)
        {
          if k != h { assert NodeOk(t, k); }
        }
      } else {
        assert NodeOk(t, h);
      }
    }
  }

  // ---------------------------------------------------------------- live blocks

  // The blocks handed out, as offset and size.
  ghost function Live(t: seq<State>, p: nat): set<(nat, nat)> {
    set i | 1 <= i < |t| && t[i] == Used && Log2(i) <= p :: (Shift(p, i), Size(p, i))
  }

  ghost predicate Overlap(a: (nat, nat), b: (nat, nat)) {
    a.0 < b.0 + b.1 && b.0 < a.0 + a.1
  }

  ghost predicate Untouched(live: set<(nat, nat)>, block: (nat, nat)) {
    forall b :: b in live ==> !Overlap(b, block)
  }

  // An aligned stretch of the pool, none of it handed out.
  ghost predicate FreeBlock(live: set<(nat, nat)>, p: nat, off: nat, size: nat)
    requires size > 0
  {
    Multiple(off, size) && off + size <= Pow2(p) && Untouched(live, (off, size))
  }

  ghost predicate NoRoom(live: set<(nat, nat)>, p: nat, size: nat)
    requires size > 0
  {
    forall off :: !FreeBlock(live, p, off, size)
  }

  lemma LiveHas(t: seq<State>, p: nat, i: nat)
    requires 1 <= i < |t| && Log2(i) <= p
    ensures t[i] == Used ==> (Shift(p, i), Size(p, i)) in Live(t, p)
  {
  }

  // No two live blocks share a byte.
  lemma LiveApart(t: seq<State>, p: nat, m: nat, i: nat, j: nat)
    requires Inv(t, p, m) && 1 <= i < |t| && 1 <= j < |t| && t[i] == Used && t[j] == Used && i != j
    ensures Log2(i) <= p && Log2(j) <= p
    ensures !Overlap((Shift(p, i), Size(p, i)), (Shift(p, j), Size(p, j)))
  {
    Level(t, p, m, i);
    Level(t, p, m, j);
    Separate(p, i, j);
    if Under(i, j) { UnusedBelow(t, p, m, j, i); }
    if Under(j, i) { UnusedBelow(t, p, m, i, j); }
  }

  // An unused block below split ones only is free.
  lemma FreeIfReached(t: seq<State>, p: nat, m: nat, i: nat)
    requires Inv(t, p, m) && 1 <= i < |t| && t[i] == Unused && SplitPath(t, i)
    ensures Log2(i) <= p && Untouched(Live(t, p), (Shift(p, i), Size(p, i)))
  {
    Level(t, p, m, i);
    forall u | 1 <= u < |t| && t[u] == Used && Log2(u) <= p
      ensures !Overlap((Shift(p, u), Size(p, u)), (Shift(p, i), Size(p, i)))
    {
      Separate(p, u, i);
      if Under(u, i) { UnusedBelow(t, p, m, i, u); }
      if Under(i, u) { SplitAbove(t, i, u); }
    }
  }

  lemma Taken(t: seq<State>, p: nat, u: nat, j: nat)
    requires 1 <= u < |t| && t[u] == Used && Log2(u) <= p && 1 <= j && Log2(j) <= p
    requires Under(u, j) || Under(j, u)
    ensures !Untouched(Live(t, p), (Shift(p, j), Size(p, j)))
  {
    if Under(u, j) { Nested(p, u, j); } else { Nested(p, j, u); }
    assert (Shift(p, u), Size(p, u)) in Live(t, p);
  }

  // Below a busy block, and at a split block of the wanted size, nothing is free.
  lemma NotFree(t: seq<State>, p: nat, m: nat, i: nat, j: nat)
    requires Inv(t, p, m) && 1 <= i && 1 <= j < |t| && Under(j, i)
    requires Busy(t[i]) || (t[i] == Split && j == i)
    ensures Log2(j) <= p && !Untouched(Live(t, p), (Shift(p, j), Size(p, j)))
  {
    Level(t, p, m, j);
    var a := j;
    if Busy(t[i]) { a := BusyBelow(t, p, m, i, j); }
    var u := UsedBelow(t, p, m, a);
    Level(t, p, m, u);
    if a != j && u != a { UnusedBelow(t, p, m, a, u); }
    Taken(t, p, u, j);
  }

  // ---------------------------------------------------------------- searching

  // No block of 2^k bytes that starts before `off` is free.
  ghost predicate SearchedTo(t: seq<State>, p: nat, k: nat, off: nat) {
    forall j {:trigger Shift(p, j)} :: 1 <= j < |t| && Log2(j) <= p && Log2(j) == p - k && Shift(p, j) < off ==>
      !Untouched(Live(t, p), (Shift(p, j), Pow2(k)))
  }

  lemma SkipOk(t: seq<State>, p: nat, m: nat, k: nat, i: nat)
    requires Inv(t, p, m) && m <= k <= p && 1 <= i < |t| && Log2(i) <= p - k
    requires Busy(t[i]) || (t[i] == Split && Log2(i) == p - k)
    requires SearchedTo(t, p, k, Shift(p, i))
    ensures SearchedTo(t, p, k, Shift(p, i) + Size(p, i))
  {
    forall j {:trigger Shift(p, j)} |
      1 <= j < |t| && Log2(j) <= p && Log2(j) == p - k && Shift(p, j) < Shift(p, i) + Size(p, i)
      ensures !Untouched(Live(t, p), (Shift(p, j), Pow2(k)))
    {
      if Shift(p, j) >= Shift(p, i) {
        Separate(p, j, i);
        if Under(i, j) { LowerLevel(i, j); }
        if Log2(i) == p - k { if Under(j, i) { LowerLevel(j, i); } }
        NotFree(t, p, m, i, j);
      }
    }
  }

  lemma TooLarge(live: set<(nat, nat)>, p: nat, size: nat)
    requires size > Pow2(p)
    ensures NoRoom(live, p, size)
  {
  }

  // Nothing that starts before `end` is free.
  ghost predicate NoRoomBefore(live: set<(nat, nat)>, p: nat, size: nat, end: nat)
    requires size > 0
  {
    forall off: nat :: off < end ==> !FreeBlock(live, p, off, size)
  }

  lemma NoneFreeBefore(t: seq<State>, p: nat, m: nat, k: nat, end: nat)
    requires Inv(t, p, m) && m <= k <= p && SearchedTo(t, p, k, end)
    ensures NoRoomBefore(Live(t, p), p, Pow2(k), end)
  {
    forall off: nat | off < end
      ensures !FreeBlock(Live(t, p), p, off, Pow2(k))
    {
      if FreeBlock(Live(t, p), p, off, Pow2(k)) {
        var j := BlockIndex(p, k, off);
        Log2Bounds(j);
        Pow2Mono(p - k, p - m);
      }
    }
  }

  // The end of the pool has been reached.
  lemma NoneFree(t: seq<State>, p: nat, m: nat, k: nat)
    requires Inv(t, p, m) && m <= k <= p && SearchedTo(t, p, k, Pow2(p))
    ensures NoRoom(Live(t, p), p, Pow2(k))
  {
    NoneFreeBefore(t, p, m, k, Pow2(p));
  }

  lemma LiveAdd(t: seq<State>, t': seq<State>, p: nat, i: nat)
    requires |t| == |t'| && 1 <= i < |t| && Log2(i) <= p
    requires forall k :: 1 <= k < |t| ==> (t'[k] == Used <==> t[k] == Used || k == i)
    ensures Live(t', p) == Live(t, p) + {(Shift(p, i), Size(p, i))}
  {
  }

  // Where a search for 2^k bytes stands in the tree t, which was t0 when it
  // began. Until it splits a block it has only looked; from then on it goes
  // straight down.
  ghost predicate Searching(t0: seq<State>, t: seq<State>, p: nat, m: nat, k: nat, i: nat, splitting: bool) {
    && Inv(t0, p, m) && m <= k <= p && |t| == |t0| && 1 <= i < |t| && Log2(i) <= p - k
    && SearchedTo(t0, p, k, Shift(p, i))
    && (if splitting then Descending(t, p, m, i) && Untouched(Live(t0, p), (Shift(p, i), Size(p, i)))
        else t == t0 && SplitPath(t, i))
    && forall j :: 1 <= j < |t| ==> (t[j] == Used <==> t0[j] == Used)
  }

  lemma SizeOrder(p: nat, k: nat, i: nat)
    requires 1 <= i && k <= p && Log2(i) <= p - k
    ensures Size(p, i) == Pow2(k) <==> Log2(i) == p - k
    ensures Size(p, i) >= Pow2(k)
  {
    Pow2Mono(k, p - Log2(i));
    if Log2(i) < p - k { Pow2Mono(k + 1, p - Log2(i)); }
  }

  lemma SearchFound(t0: seq<State>, t: seq<State>, p: nat, m: nat, k: nat, i: nat, splitting: bool)
    requires Searching(t0, t, p, m, k, i, splitting) && t[i] == Unused
    ensures Descending(t, p, m, i) && Untouched(Live(t0, p), (Shift(p, i), Size(p, i)))
  {
    if !splitting { FreeIfReached(t0, p, m, i); }
  }

  lemma SearchSplit(t0: seq<State>, t: seq<State>, p: nat, m: nat, k: nat, i: nat, splitting: bool)
    requires Searching(t0, t, p, m, k, i, splitting) && t[i] == Unused && Log2(i) < p - k
    ensures 2 * i < |t| && Log2(2 * i) == Log2(i) + 1 <= p && Shift(p, 2 * i) == Shift(p, i)
    ensures Searching(t0, t[i := Split], p, m, k, 2 * i, true)
  {
    SearchFound(t0, t, p, m, k, i, splitting);
    Level(t, p, m, i);
    Halves(p, i);
    DescendOk(t, p, m, i);
  }

  lemma SearchDown(t0: seq<State>, t: seq<State>, p: nat, m: nat, k: nat, i: nat, splitting: bool)
    requires Searching(t0, t, p, m, k, i, splitting) && t[i] == Split && Log2(i) < p - k
    ensures 2 * i < |t| && Log2(2 * i) == Log2(i) + 1 <= p && Shift(p, 2 * i) == Shift(p, i)
    ensures Searching(t0, t, p, m, k, 2 * i, false)
  {
    Level(t, p, m, i);
    Halves(p, i);
    assert (2 * i) / 2 == i;
  }

  lemma SearchSkip(t0: seq<State>, t: seq<State>, p: nat, m: nat, k: nat, i: nat, splitting: bool)
    requires Searching(t0, t, p, m, k, i, splitting) && (Busy(t[i]) || (t[i] == Split && Log2(i) == p - k))
    ensures t == t0 && SplitPath(t, i) && Log2(i) <= p && SearchedTo(t, p, k, Shift(p, i) + Size(p, i))
  {
    SkipOk(t0, p, m, k, i);
  }

  lemma FoundIsFree(live: set<(nat, nat)>, p: nat, k: nat, i: nat)
    requires k <= p && 1 <= i && Log2(i) == p - k && Untouched(live, (Shift(p, i), Pow2(k)))
    ensures FreeBlock(live, p, Shift(p, i), Pow2(k))
  {
    Aligned(p, i);
    InPool(p, i);
  }

  // ---------------------------------------------------------------- freeing

  ghost function Buddy(i: nat): nat
    requires i > 1
  {
    if i % 2 == 0 then i + 1 else i - 1
  }

  // Block i no longer holds anything busy; the block above it, which does not
  // know yet, is split, or full with its other half busy.
  ghost predicate Loosened(t: seq<State>, p: nat, m: nat, i: nat) {
    && Sized(t, p, m) && 1 <= i < |t| && !Busy(t[i])
    && (forall k {:trigger NodeOk(t, k)} :: 1 <= k < |t| && k != i / 2 ==> NodeOk(t, k))
    && (i > 1 ==> 2 * (i / 2) + 1 < |t| && (t[i / 2] == Split || (t[i / 2] == Full && Busy(t[Buddy(i)]))))
  }

  lemma ReleaseOk(t: seq<State>, p: nat, m: nat, i: nat)
    requires Inv(t, p, m) && 1 <= i < |t| && t[i] == Used
    ensures Loosened(t[i := Unused], p, m, i)
  {
    var t' := t[i := Unused];
    if i > 1 {
      Level(t, p, m, i / 2);
      assert NodeOk(t, i / 2);
    }
    forall k | 1 <= k < |t| && k != i / 2
      ensures NodeOk(t', k)
    {
      assert NodeOk(t, k);
    }
  }

  // Two unused halves become one unused block.
  lemma MergeOk(t: seq<State>, p: nat, m: nat, i: nat)
    requires Loosened(t, p, m, i) && i > 1 && t[2 * (i / 2)] == Unused && t[2 * (i / 2) + 1] == Unused
    ensures Loosened(t[i / 2 := Unused], p, m, i / 2)
    ensures t[i / 2] == Split && (i / 2 > 1 ==> t[i / 2 / 2] == Split)
  {
    var h := i / 2;
    var t' := t[h := Unused];
    assert t[Buddy(i)] == Unused;
    if h > 1 {
      Level(t, p, m, h / 2);
      assert NodeOk(t, h / 2);
    }
    forall k | 1 <= k < |t| && k != h / 2
      ensures NodeOk(t', k)
    {
      if k != h { assert NodeOk(t, k); }
    }
  }

  // Nothing is left to merge at block i.
  ghost predicate Merged(t: seq<State>, p: nat, m: nat, i: nat) {
    Loosened(t, p, m, i) && (i > 1 ==> !(t[2 * (i / 2)] == Unused && t[2 * (i / 2) + 1] == Unused))
  }

  lemma MergedDone(t: seq<State>, p: nat, m: nat, i: nat)
    requires Merged(t, p, m, i) && (i > 1 ==> t[i / 2] != Full)
    ensures Inv(t, p, m)
  {
    forall k | 1 <= k < |t|
      ensures NodeOk(t, k)
    {
      if k == i / 2 { assert i == 2 * k || i == 2 * k + 1; }
    }
  }

  // A full block with a loosened half is only split.
  lemma UnfillOk(t: seq<State>, p: nat, m: nat, i: nat)
    requires Merged(t, p, m, i) && i > 1 && t[i / 2] == Full
    ensures Merged(t[i / 2 := Split], p, m, i / 2)
  {
    var h := i / 2;
    var t' := t[h := Split];
    if h > 1 {
      Level(t, p, m, h / 2);
      assert NodeOk(t, h / 2);
    }
    forall k | 1 <= k < |t| && k != h / 2
      ensures NodeOk(t', k)
    {
      if k != h { assert NodeOk(t, k); }
    }
  }

  // Which half of i holds the block j below it.
  lemma Half(p: nat, i: nat, j: nat)
    requires 1 <= i && Above(j, i) && Log2(j) <= p
    ensures Log2(i) < p && i < j
    ensures Under(j, if Shift(p, j) >= Shift(p, i) + Size(p, 2 * i) then 2 * i + 1 else 2 * i)
  {
    var c := KidTowards(j, i);
    Nested(p, j, c);
    Nested(p, j, i);
    if Log2(j) == Log2(i) { LowerLevel(j, i); }
    Halves(p, i);
    Nested(p, j, c);
  }

  lemma LiveRemove(t: seq<State>, t': seq<State>, p: nat, m: nat, i: nat)
    requires Inv(t, p, m) && |t| == |t'| && 1 <= i < |t| && t[i] == Used
    requires forall k :: 1 <= k < |t| ==> (t'[k] == Used <==> t[k] == Used && k != i)
    ensures Log2(i) <= p && Live(t', p) == Live(t, p) - {(Shift(p, i), Size(p, i))}
  {
    Level(t, p, m, i);
    forall k | 1 <= k < |t| && t[k] == Used && k != i
      ensures Log2(k) <= p && Shift(p, k) != Shift(p, i)
    {
      LiveApart(t, p, m, i, k);
    }
  }

  lemma LiveIndex(t: seq<State>, p: nat, off: nat, size: nat) returns (i: nat)
    requires (off, size) in Live(t, p)
    ensures 1 <= i < |t| && t[i] == Used && Log2(i) <= p && Shift(p, i) == off && Size(p, i) == size
  {
    i :| 1 <= i < |t| && t[i] == Used && Log2(i) <= p && Shift(p, i) == off && Size(p, i) == size;
  }
}
