module SlabAllocator {
  import opened Powers
  import opened SlabModel

  const SLAB_SIZE_MINOR := 128
  const SLAB_SIZE_MAX := 1024

  // ------------------------------------------- the effect of one list operation

  ghost predicate Offset(m: seq<Meta>, i: int) { i == -1 || 0 < i < |m| }

  // b takes a's place in the free list.
  ghost predicate Replaced(m: seq<Meta>, m': seq<Meta>, a: int, b: int)
    requires 0 <= a < |m|
  {
    var pr, nx := m[a].prev, m[a].next;
    |m'| == |m| && forall i :: 0 <= i < |m| ==>
      m'[i] == if i == b then m[i].(prev := pr, next := nx)
               else if i == pr then m[i].(next := b)
               else if i == nx then m[i].(prev := b)
               else m[i]
  }

  class SlabPage {
    const metas: array<Meta>
    var free: int
    var remain: int
    ghost var c: set<int>

    ghost function State(): Page
      reads this, metas
    {
      Page(c, metas[..], free, remain)
    }

    ghost predicate Valid()
      reads this, metas
    {
      Inv(State())
    }

    // A page fresh from the system is one free chunk.
    constructor ()
      ensures Valid() && Used(State()) == map[] && fresh(metas)
      ensures IsFree(c, metas[..], PAGE_HEAD_SIZE)
      ensures metas[..][PAGE_HEAD_SIZE].size == PAGE_SIZE - PAGE_HEAD_SIZE - META_SIZE
    {
      metas := new Meta[PAGE_SIZE](_ => Meta(PAGE_SIZE - PAGE_HEAD_SIZE - META_SIZE, false, -1, -1));
      free := PAGE_HEAD_SIZE;
      remain := PAGE_SIZE - PAGE_HEAD_SIZE;
      c := {PAGE_HEAD_SIZE};
      new;
      assert FreeBytes(metas[..], PAGE_SIZE) == 0;
    }

    // The chunk after `meta` in the list, or -1.
    method FreeErase(meta: int) returns (next: int)
      requires InPage(c, metas[..]) && meta in c && IsFree(c, metas[..], meta)
      requires NextOk(c, metas[..], meta) && PrevOk(c, metas[..], meta)
      modifies metas
      ensures next == old(metas[meta].next)
      ensures metas.Length == PAGE_SIZE && forall i :: 0 <= i < PAGE_SIZE ==>
                metas[i] == if i == meta then old(metas[i]).(prev := -1, next := -1)
                            else if i == old(metas[meta].prev) then old(metas[i]).(next := next)
                            else if i == next then old(metas[i]).(prev := old(metas[meta].prev))
                            else old(metas[i])
    {
      var prev := metas[meta].prev;
      next := metas[meta].next;
      if next > 0 {
        metas[next] := metas[next].(prev := if prev > 0 then prev else -1);
      }
      if prev > 0 {
        metas[prev] := metas[prev].(next := if next > 0 then next else -1);
      }
      metas[meta] := metas[meta].(prev := -1, next := -1);
    }

    method FreeReplace(meta: int, replace: int)
      requires 0 < meta < metas.Length && 0 < replace < metas.Length && meta != replace
      requires Offset(metas[..], metas[meta].next) && Offset(metas[..], metas[meta].prev)
      requires metas[meta].next !in {meta, replace} && metas[meta].prev !in {meta, replace}
      requires metas[meta].next == metas[meta].prev ==> metas[meta].next == -1
      modifies metas
      ensures Replaced(old(metas[..]), metas[..], meta, replace)
    {
      if metas[meta].prev > 0 {
        var prev := metas[meta].prev;
        metas[prev] := metas[prev].(next := replace);
        metas[replace] := metas[replace].(prev := prev);
      } else {
        metas[replace] := metas[replace].(prev := -1);
      }
      if metas[meta].next > 0 {
        var next := metas[meta].next;
        metas[next] := metas[next].(prev := replace);
        metas[replace] := metas[replace].(next := next);
      } else {
        metas[replace] := metas[replace].(next := -1);
      }
    }

    // The rest of chunk `meta` behind `used` bytes becomes a chunk.
    method FreeSplit(meta: int, used: int) returns (next: int)
      requires 0 <= meta && META_SIZE <= used && meta + META_SIZE + used < metas.Length
      modifies metas
      ensures next == meta + META_SIZE + used
      ensures metas[..] == old(metas[..])[next := Meta(old(metas[meta].size) - used - META_SIZE, false, -1, -1)]
                           [meta := old(metas[meta]).(size := used)]
    {
      next := meta + META_SIZE + used;
      metas[next] := Meta(metas[meta].size - used - META_SIZE, false, -1, -1);
      metas[meta] := metas[meta].(size := used);
    }

    // The two ways a free chunk `s` that fits is taken.
    method TakeWhole(s: int)
      requires Linked(State()) && IsFree(c, metas[..], s)
      modifies this, metas
      ensures State() == Unlink(old(State()), s)
    {
      ghost var p := State();
      assert NextOk(c, p.m, s) && PrevOk(c, p.m, s);
      var next := FreeErase(s);
      if s == free {
        free := if next > 0 then next else -1;
      }
      metas[s] := metas[s].(alloc := true, next := -1, prev := -1);
      remain := remain - META_SIZE - metas[s].size;
      assert metas[..] == Unlink(p, s).m;
    }

    method TakePart(s: int, sz: int)
      requires Linked(State()) && Cuttable(State(), s, sz)
      modifies this, metas
      ensures State() == Unlink(Cut(old(State()), s, sz), s)
    {
      ghost var p := State();
      assert NextOk(c, p.m, s) && PrevOk(c, p.m, s) && TileOk(c, p.m, s);
      CutTiles(p, s, sz);
      if p.m[s].next != -1 { assert Apart(p.c, p.m, s, p.m[s].next); }
      var split := FreeSplit(s, sz);
      c := c + {split};
      FreeReplace(s, split);
      if s == free {
        free := split;
      }
      metas[s] := metas[s].(alloc := true, next := -1, prev := -1);
      remain := remain - META_SIZE - metas[s].size;
      assert metas[..] == Unlink(Cut(p, s, sz), s).m;
    }

    // First fit: the memory behind the header of the first free chunk that is
    // large enough, or -1.
    method Alloc(sz: int) returns (mem: int)
      requires Valid() && META_SIZE <= sz && sz % META_SIZE == 0
      modifies this, metas
      ensures Valid()
      ensures mem == -1 ==> State() == old(State())
      ensures mem == -1 <==> NoFit(old(State()), sz)
      ensures mem != -1 ==> FirstFit(old(State()), mem - META_SIZE, sz)
      ensures mem != -1 ==> State() == Allocated(old(State()), mem - META_SIZE, sz)
    {
      ghost var p := State();
      if free <= 0 || remain < sz + META_SIZE {
        forall t | IsFree(c, metas[..], t)
          ensures metas[t].size < sz
        {
          FitsRemain(p, t);
        }
        return -1;
      }
      var shift := free;
      while shift > 0
        invariant shift == -1 || IsFree(c, p.m, shift)
        invariant State() == p
        invariant forall t :: IsFree(c, p.m, t) && (shift == -1 || t < shift) ==> p.m[t].size < sz
        decreases if shift < 0 then 0 else PAGE_SIZE + 1 - shift
      {
        var meta := shift;
        assert NextOk(c, p.m, meta);
        shift := metas[meta].next;
        if metas[meta].size >= sz {
          AllocatedOk(p, meta, sz);
          if metas[meta].size <= sz + META_SIZE {
            TakeWhole(meta);
          } else {
            TakePart(meta, sz);
          }
          return meta + META_SIZE;
        }
      }
      return -1;
    }

    // The page in the middle of freeing chunk s: it counts as free already but
    // is in no list.
    ghost predicate Freeing(p: Page, s: int)
      reads this, metas
    {
      && Inv(p) && s in p.c && p.m[s].alloc
      && State() == Page(p.c, p.m[s := p.m[s].(alloc := false)], p.free, p.remain + META_SIZE + p.m[s].size)
    }

    // Chunk `insert` enters the list behind `meta`, which is the last free chunk
    // before it: the list is complete, doubly linked and in order again.
    method FreeInsert(meta: int, insert: int, ghost p: Page)
      requires Freeing(p, insert) && Spot(p, insert, meta) && meta != -1
      modifies metas
      ensures State() == Link(p, insert, meta) && Linked(State())
    {
      LinkOk(p, insert, meta);
      assert NextOk(p.c, p.m, meta) && NextOk(p.c, p.m, insert) && PrevOk(p.c, p.m, insert);
      assert metas.Length == |metas[..]| == PAGE_SIZE && metas[..][meta] == p.m[meta];
      if metas[meta].next > 0 {
        var next := metas[meta].next;
        metas[insert] := metas[insert].(next := next);
        metas[next] := metas[next].(prev := insert);
      }
      metas[insert] := metas[insert].(prev := meta);
      metas[meta] := metas[meta].(next := insert);
      assert metas[..] == Link(p, insert, meta).m;
    }

    // The chunk `prev` before `s` takes in `s` if it reaches it.
    method MergeBefore(prev: int, s: int, ghost q: Page)
      requires Linked(q) && Agree(q, State()) && IsFree(q.c, q.m, s)
      requires prev != -1 ==> IsFree(q.c, q.m, prev) && prev != s && prev > 0
      modifies this, metas
      ensures Agree(if prev != -1 && End(q.m, prev) == s then Absorb(q, prev, s) else q, State())
    {
      assert metas.Length == |State().m| && NextOk(q.c, q.m, s);
      assert prev != -1 ==> TileOk(q.c, q.m, prev);
      if prev != -1 && prev + META_SIZE + metas[prev].size == s {
        metas[prev] := metas[prev].(size := metas[prev].size + META_SIZE + metas[s].size, next := metas[s].next);
        var after := if metas[s].next > 0 then metas[s].next else -1;
        if after != -1 {
          metas[after] := metas[after].(prev := prev);
        }
        c := c - {s};
      }
    }

    // Chunk `s` takes in the free chunk `next` behind it, and its place in the list.
    method TakeNext(s: int, next: int, ghost p: Page)
      requires Freeing(p, s) && next == End(p.m, s) && IsFree(p.c, p.m, next)
      modifies this, metas
      ensures Spot(p, s, p.m[next].prev) && Agree(JoinNext(Link(p, s, p.m[next].prev), s, true), State())
    {
      assert metas.Length == |State().m|;
      assert NextOk(p.c, p.m, next) && PrevOk(p.c, p.m, next) && NextOk(p.c, p.m, s) && PrevOk(p.c, p.m, s);
      NextSpot(p, s);
      metas[s] := metas[s].(size := metas[s].size + META_SIZE + metas[next].size);
      FreeReplace(next, s);
      if next == free {
        free := s;
      }
      c := c - {next};
    }

    // If the chunk after `s` is free, `s` takes it in and takes its place in the
    // list; then the chunk before `s`, if free, takes in `s`.
    method QuickMerge(s: int, ghost p: Page) returns (r: int)
      requires Freeing(p, s)
      modifies this, metas
      ensures r == 0 <==> IsFree(p.c, p.m, End(p.m, s))
      ensures r != 0 ==> r == -1 && Freeing(p, s)
      ensures r == 0 ==> Spot(p, s, p.m[End(p.m, s)].prev) && Agree(Freed(p, s, p.m[End(p.m, s)].prev), State())
    {
      assert TileOk(p.c, p.m, s) && NextOk(p.c, p.m, s) && PrevOk(p.c, p.m, s);
      assert metas.Length == |State().m|;
      var shift := s + META_SIZE + metas[s].size;
      if shift < PAGE_SIZE {
        var next := shift;
        if !metas[next].alloc {
          assert NextOk(p.c, p.m, next) && PrevOk(p.c, p.m, next);
          NextSpot(p, s);
          var prev := if metas[next].prev > 0 then metas[next].prev else -1;
          TakeNext(s, next, p);
          JoinedNext(p, s, prev);
          MergeBefore(prev, s, JoinNext(Link(p, s, prev), s, true));
          return 0;
        }
      }
      return -1;
    }

    // The same with the free chunk `prev` before `s`, whose links stay as they are.
    method QuickMergeBehind(prev: int, ghost p: Page, ghost s: int) returns (r: int)
      requires Freeing(p, s) && Spot(p, s, prev) && prev != -1 && !IsFree(p.c, p.m, End(p.m, s))
      modifies this, metas
      ensures r == 0 <==> End(p.m, prev) == s
      ensures r != 0 ==> r == -1 && Freeing(p, s)
      ensures r == 0 ==> Agree(Freed(p, s, prev), State())
    {
      assert TileOk(p.c, p.m, prev) && MergedOk(p.c, p.m, prev) && NextOk(p.c, p.m, prev) && PrevOk(p.c, p.m, s)
             && NextOk(p.c, p.m, s);
      assert metas.Length == |State().m|;
      var shift := prev + META_SIZE + metas[prev].size;
      if shift < PAGE_SIZE {
        if !metas[shift].alloc {
          metas[prev] := metas[prev].(size := metas[prev].size + META_SIZE + metas[shift].size);
          c := c - {shift};
          return 0;
        }
      }
      return -1;
    }

    // The last free chunk before `shift`; the first free one is before it.
    method FindPrev(shift: int, ghost p: Page) returns (prev: int)
      requires Freeing(p, shift) && free != -1 && free < shift
      ensures prev != -1 && Spot(p, shift, prev)
    {
      prev := free;
      assert metas.Length == |State().m| && NextOk(p.c, p.m, prev);
      while true
        invariant IsFree(p.c, p.m, prev) && NextOk(p.c, p.m, prev) && prev < shift
        decreases shift - prev
      {
        if metas[prev].next < 0 {
          break;
        }
        if shift < metas[prev].next {
          break;
        }
        prev := metas[prev].next;
        assert NextOk(p.c, p.m, prev);
      }
    }

    // Chunk `s` comes back.
    method Free(s: int)
      requires Valid() && s in c && metas[s].alloc
      modifies this, metas
      ensures Valid() && Used(State()) == Used(old(State())) - {s}
      ensures exists pr :: Spot(old(State()), s, pr) && Agree(Freed(old(State()), s, pr), State())
    {
      ghost var p := State();
      assert metas.Length == |p.m| && NextOk(p.c, p.m, s) && PrevOk(p.c, p.m, s);
      metas[s] := metas[s].(alloc := false);
      remain := remain + metas[s].size + META_SIZE;
      ghost var pr := -1;
      var r := QuickMerge(s, p);
      if r == 0 {
        pr := p.m[End(p.m, s)].prev;
      } else if free < 0 {
        metas[s] := metas[s].(next := -1, prev := -1);
        free := s;
      } else if s < free {
        metas[s] := metas[s].(next := free, prev := -1);
        metas[free] := metas[free].(prev := s);
        free := s;
      } else {
        var prev := FindPrev(s, p);
        pr := prev;
        r := QuickMergeBehind(prev, p, s);
        if r != 0 {
          FreeInsert(prev, s, p);
        }
      }
      FreedOk(p, s, pr);
      AgreeOk(Freed(p, s, pr), State());
    }
  }

  // A list without page p.
  function Without(l: seq<SlabPage>, p: SlabPage): (r: seq<SlabPage>)
    ensures multiset(r) == multiset(l)[p := 0]
  {
    if l == [] then [] else
      assert l == [l[0]] + l[1..];
      if l[0] == p then Without(l[1..], p) else [l[0]] + Without(l[1..], p)
  }

  // SLAB_ALIGN on a size_t.
  function Align(sz: nat): nat { (sz + 7) % SIZE_LIMIT / 8 * 8 }

  // The least multiple of 8 that is not below the size; but the sum wraps for the
  // seven largest sizes, and just for those the result is too small: it is 0.
  lemma AlignWraps(sz: nat)
    requires sz < SIZE_LIMIT
    ensures Align(sz) >= sz <==> sz <= SIZE_LIMIT - 8
    ensures sz > SIZE_LIMIT - 8 ==> Align(sz) == 0
    ensures Align(sz) % 8 == 0 && Align(sz) < sz + 8
  {
    if sz + 7 < SIZE_LIMIT {
      Division(sz + 7, SIZE_LIMIT, 0, sz + 7);
    } else {
      Division(sz + 7, SIZE_LIMIT, 1, sz + 7 - SIZE_LIMIT);
    }
  }

  // The chunks handed out on each page, by header offset, with their sizes.
  ghost function LiveChunks(st: map<SlabPage, Page>): map<SlabPage, map<int, int>> {
    map p | p in st :: Used(st[p])
  }

  // Both size limits are multiples of 8.
  lemma AlignClass(sz: nat)
    requires sz <= SIZE_LIMIT - 8
    ensures var a := Align(sz);
            && sz <= a && a % META_SIZE == 0 && (sz > 0 ==> a >= META_SIZE)
            && (a <= SLAB_SIZE_MINOR <==> sz <= 128) && (a <= SLAB_SIZE_MAX <==> sz <= 1024)
  {
    AlignWraps(sz);
  }

  // No page of the list has a free chunk for sz bytes.
  ghost predicate AllRefuse(st: map<SlabPage, Page>, list: seq<SlabPage>, sz: int) {
    list != [] ==>
      var i := |list| - 1;
      AllRefuse(st, list[..i], sz) && list[i] in st && NoFit(st[list[i]], sz)
  }

  lemma OneRefuses(st: map<SlabPage, Page>, list: seq<SlabPage>, i: nat, sz: int)
    requires i < |list| && AllRefuse(st, list[..i], sz) && list[i] in st && NoFit(st[list[i]], sz)
    ensures AllRefuse(st, list[..i + 1], sz)
  {
    assert list[..i + 1][..i] == list[..i];
  }

  // The page is the first of the list that has room, and its first chunk that fits is
  // the one.
  ghost predicate FirstToServe(st: map<SlabPage, Page>, list: seq<SlabPage>, page: SlabPage, mem: int, sz: int) {
    && (exists i :: 0 <= i < |list| && list[i] == page && AllRefuse(st, list[..i], sz))
    && page in st && FirstFit(st[page], mem - META_SIZE, sz)
  }

  // Every page holds at least one live chunk.
  ghost predicate AllBusy(st: map<SlabPage, Page>) {
    forall p :: p in st ==> Used(st[p]) != map[]
  }

  // The chunk behind `mem` on `page`, not live before, now holds `size` bytes or
  // a little more, and nothing else has changed hands.
  ghost predicate Serves(st: map<SlabPage, Page>, st': map<SlabPage, Page>, page: SlabPage, mem: int, size: int) {
    var was, s := if page in st then Used(st[page]) else map[], mem - META_SIZE;
    && page in st' && s !in was && s in Used(st'[page]) && size <= Used(st'[page])[s] <= size + META_SIZE
    && LiveChunks(st') == LiveChunks(st)[page := was[s := Used(st'[page])[s]]]
  }

  lemma LiveChunksUpdate(st: map<SlabPage, Page>, page: SlabPage, p: Page)
    ensures LiveChunks(st[page := p]) == LiveChunks(st)[page := Used(p)]
  {
  }

  lemma AllocServes(st: map<SlabPage, Page>, page: SlabPage, p: Page, mem: int, sz: int)
    requires AllBusy(st) && Inv(p) && (if page in st then st[page] == p else Used(p) == map[])
    requires FirstFit(p, mem - META_SIZE, sz) && META_SIZE <= sz && sz % META_SIZE == 0
    ensures var st' := st[page := Allocated(p, mem - META_SIZE, sz)]; AllBusy(st') && Serves(st, st', page, mem, sz)
  {
    var p' := Allocated(p, mem - META_SIZE, sz);
    AllocatedOk(p, mem - META_SIZE, sz);
    assert mem - META_SIZE in Used(p');
    LiveChunksUpdate(st, page, p');
  }

  lemma BackIn(a: multiset<SlabPage>, b: multiset<SlabPage>, c: multiset<SlabPage>, d: multiset<SlabPage>,
               page: SlabPage)
    requires (a + b + c + d)[page] == 1
    ensures a[page := 0] + b[page := 0] + c[page := 0] + d[page := 0] + multiset{page} == a + b + c + d
  {
  }

  lemma OneMore(was: set<SlabPage>, page: SlabPage)
    requires page !in was
    ensures multiset(was + {page}) == multiset(was) + multiset{page}
  {
  }

  lemma Cancel(a: multiset<SlabPage>, b: multiset<SlabPage>, page: SlabPage)
    requires a + multiset{page} == b + multiset{page}
    ensures a == b
  {
    assert a == a + multiset{page} - multiset{page};
  }

  // The chunk at s leaves its page; its page goes with its last chunk.
  ghost predicate Returned(st: map<SlabPage, Page>, st': map<SlabPage, Page>, page: SlabPage, s: int)
    requires page in st
  {
    var rest := Used(st[page]) - {s};
    LiveChunks(st') == if rest == map[] then LiveChunks(st) - {page} else LiveChunks(st)[page := rest]
  }

  lemma FreeReturns(st: map<SlabPage, Page>, page: SlabPage, p: Page, s: int)
    requires AllBusy(st) && page in st && Inv(p) && Used(p) == Used(st[page]) - {s}
    ensures var st' := if p.remain + PAGE_HEAD_SIZE == PAGE_SIZE then st - {page} else st[page := p];
            AllBusy(st') && Returned(st, st', page, s)
  {
    EmptyPage(p);
    LiveChunksUpdate(st, page, p);
  }

  // The four page lists.
  class Slab {
    var minor: seq<SlabPage>
    var common: seq<SlabPage>
    var allocMinor: seq<SlabPage>
    var allocCommon: seq<SlabPage>
    ghost var st: map<SlabPage, Page>
    ghost var repr: set<object>

    // Every page is on one list, once.
    ghost predicate Listed()
      reads this
    {
      multiset(minor) + multiset(common) + multiset(allocMinor) + multiset(allocCommon) == multiset(st.Keys)
    }

    // The snapshot of a page.
    ghost predicate PageOk(p: SlabPage)
      requires p in st
      reads this`st, p, p.metas
    {
      p.State() == st[p] && Inv(st[p])
    }

    ghost predicate OwnMemory(p: SlabPage, q: SlabPage) {
      p != q ==> p.metas != q.metas
    }

    // Every page is as the snapshot says, and no two share memory.
    ghost predicate Synced()
      reads this`st, this`repr, repr
    {
      && this !in repr
      && (forall p {:trigger PageOk(p)} :: p in st ==> p in repr && p.metas in repr && PageOk(p))
      && forall p, q {:trigger OwnMemory(p, q)} :: p in st && q in st ==> OwnMemory(p, q)
    }

    ghost predicate Valid()
      reads this, repr
    {
      Listed() && Synced() && AllBusy(st)
    }

    // A page that has just served a request and may be too full for the next is
    // no longer asked.
    ghost predicate SetAside(page: SlabPage, isMinor: bool)
      reads this, page
    {
      page.remain < (if isMinor then SLAB_SIZE_MINOR else SLAB_SIZE_MAX) ==>
        page in (if isMinor then allocMinor else allocCommon) && page !in minor && page !in common
    }

    // A page that got a chunk of this size back is the first to be asked for one.
    ghost predicate Offered(page: SlabPage, size: int)
      reads this
    {
      var list := if size <= SLAB_SIZE_MINOR then minor else common;
      size <= SLAB_SIZE_MAX ==> list != [] && list[0] == page
    }

    // The page leaves whatever list it is on.
    method ListDel(page: SlabPage)
      requires Listed() && page in st
      modifies this`minor, this`common, this`allocMinor, this`allocCommon
      ensures minor == Without(old(minor), page) && common == Without(old(common), page)
      ensures allocMinor == Without(old(allocMinor), page) && allocCommon == Without(old(allocCommon), page)
      ensures multiset(minor) + multiset(common) + multiset(allocMinor) + multiset(allocCommon) + multiset{page}
              == multiset(st.Keys)
      ensures page !in minor && page !in common
    {
      BackIn(multiset(minor), multiset(common), multiset(allocMinor), multiset(allocCommon), page);
      assert page !in multiset(Without(minor, page)) && page !in multiset(Without(common, page));
      minor := Without(minor, page);
      common := Without(common, page);
      allocMinor := Without(allocMinor, page);
      allocCommon := Without(allocCommon, page);
    }

    // A page too full for its list moves to the list of full pages.
    method PageErase(page: SlabPage, isMinor: bool)
      requires Listed() && page in st
      modifies this`minor, this`common, this`allocMinor, this`allocCommon
      ensures Listed()
      ensures page.remain >= (if isMinor then SLAB_SIZE_MINOR else SLAB_SIZE_MAX) ==>
                && minor == old(minor) && common == old(common)
                && allocMinor == old(allocMinor) && allocCommon == old(allocCommon)
      ensures page.remain < (if isMinor then SLAB_SIZE_MINOR else SLAB_SIZE_MAX) ==>
                && minor == Without(old(minor), page) && common == Without(old(common), page)
                && page !in minor && page !in common
                && allocMinor == (if isMinor then [page] else []) + Without(old(allocMinor), page)
                && allocCommon == (if isMinor then [] else [page]) + Without(old(allocCommon), page)
    {
      if isMinor {
        if page.remain < SLAB_SIZE_MINOR {
          ListDel(page);
          allocMinor := [page] + allocMinor;
        }
      } else {
        if page.remain < SLAB_SIZE_MAX {
          ListDel(page);
          allocCommon := [page] + allocCommon;
        }
      }
    }

    // A page that gets a chunk of `size` bytes back can serve such requests again.
    method PageInsert(page: SlabPage, size: int)
      requires Listed() && page in st
      modifies this`minor, this`common, this`allocMinor, this`allocCommon
      ensures Listed()
      ensures size > SLAB_SIZE_MAX ==>
                && minor == old(minor) && common == old(common)
                && allocMinor == old(allocMinor) && allocCommon == old(allocCommon)
      ensures size <= SLAB_SIZE_MAX ==>
                && minor == (if size <= SLAB_SIZE_MINOR then [page] else []) + Without(old(minor), page)
                && common == (if size <= SLAB_SIZE_MINOR then [] else [page]) + Without(old(common), page)
                && allocMinor == Without(old(allocMinor), page) && allocCommon == Without(old(allocCommon), page)
    {
      if size <= SLAB_SIZE_MINOR {
        ListDel(page);
        minor := [page] + minor;
      } else if size <= SLAB_SIZE_MAX {
        ListDel(page);
        common := [page] + common;
      }
    }

    // The page itself takes the request; the snapshot follows.
    method TakeFrom(page: SlabPage, sz: int) returns (mem: int)
      requires Synced() && page in st && META_SIZE <= sz && sz % META_SIZE == 0
      modifies this`st, page, page.metas
      ensures Synced()
      ensures mem == -1 <==> NoFit(old(st[page]), sz)
      ensures mem == -1 ==> st == old(st)
      ensures mem != -1 ==> FirstFit(old(st[page]), mem - META_SIZE, sz)
      ensures mem != -1 ==> st == old(st)[page := Allocated(old(st[page]), mem - META_SIZE, sz)]
    {
      assert PageOk(page);
      mem := page.Alloc(sz);
      st := st[page := page.State()];
      assert mem == -1 ==> st == old(st);
      forall p | p in st
        ensures p in repr && p.metas in repr && PageOk(p)
      {
        if p != page { assert old(PageOk(p)) && OwnMemory(p, page); }
      }
    }

    // A request on one page, which may be too full for it.
    method PageAlloc(page: SlabPage, isMinor: bool, sz: int) returns (mem: int)
      requires Listed() && Synced() && page in st && META_SIZE <= sz && sz % META_SIZE == 0
      modifies this, page, page.metas
      ensures Listed() && Synced() && repr == old(repr)
      ensures mem == -1 <==> NoFit(old(st[page]), sz)
      ensures mem == -1 ==> st == old(st) && minor == old(minor) && common == old(common)
      ensures mem != -1 ==> FirstFit(old(st[page]), mem - META_SIZE, sz)
      ensures mem != -1 ==> st == old(st)[page := Allocated(old(st[page]), mem - META_SIZE, sz)]
      ensures mem != -1 ==> SetAside(page, isMinor)
    {
      mem := TakeFrom(page, sz);
      assert st.Keys == old(st.Keys);
      if mem != -1 {
        PageErase(page, isMinor);
      }
    }

    lemma Members(isMinor: bool)
      requires Listed()
      ensures forall p :: p in (if isMinor then minor else common) ==> p in st
    {
      var list := if isMinor then minor else common;
      forall p | p in list
        ensures p in st
      {
        assert p in multiset(list) && p in multiset(st.Keys);
      }
    }

    // A request on one page of a sound allocator.
    method Request(page: SlabPage, isMinor: bool, sz: int) returns (mem: int)
      requires Valid() && page in st && META_SIZE <= sz && sz % META_SIZE == 0
      modifies this, page, page.metas
      ensures Valid() && st.Keys == old(st.Keys) && repr == old(repr)
      ensures mem == -1 <==> NoFit(old(st[page]), sz)
      ensures mem == -1 ==> st == old(st) && minor == old(minor) && common == old(common)
      ensures mem != -1 ==> Serves(old(st), st, page, mem, sz) && SetAside(page, isMinor)
      ensures mem != -1 ==> FirstFit(old(st[page]), mem - META_SIZE, sz)
    {
      assert PageOk(page);
      mem := PageAlloc(page, isMinor, sz);
      if mem != -1 {
        AllocServes(old(st), page, old(st)[page], mem, sz);
      }
    }

    // Every page on the list is asked in turn.
    method ListAlloc(isMinor: bool, sz: int) returns (page: SlabPage?, mem: int)
      requires Valid() && META_SIZE <= sz && sz % META_SIZE == 0
      modifies this, repr
      ensures Valid() && st.Keys == old(st.Keys) && repr == old(repr)
      ensures page == null ==> st == old(st) && AllRefuse(old(st), old(if isMinor then minor else common), sz)
      ensures page != null ==> page in old(st) && Serves(old(st), st, page, mem, sz) && SetAside(page, isMinor)
      ensures page != null ==> FirstToServe(old(st), old(if isMinor then minor else common), page, mem, sz)
    {
      var list := if isMinor then minor else common;
      Members(isMinor);
      for i := 0 to |list|
        invariant Valid() && st == old(st) && repr == old(repr)
        invariant forall k :: 0 <= k < |list| ==> list[k] in st
        invariant AllRefuse(st, list[..i], sz)
      {
        assert PageOk(list[i]);
        mem := Request(list[i], isMinor, sz);
        if mem != -1 {
          page := list[i];
          return;
        }
        OneRefuses(st, list, i, sz);
      }
      assert list[..|list|] == list;
      page, mem := null, -1;
    }

    // The snapshot gains a page fresh from the system.
    method NewPage() returns (page: SlabPage)
      requires Synced()
      modifies this`st, this`repr
      ensures fresh(page) && fresh(page.metas) && page !in old(st) && st == old(st)[page := page.State()]
              && fresh(repr - old(repr))
      ensures Synced() && Inv(st[page]) && Used(st[page]) == map[]
      ensures forall sz :: sz <= SLAB_SIZE_MAX ==> !NoFit(st[page], sz)
    {
      page := new SlabPage();
      assert IsFree(page.State().c, page.State().m, PAGE_HEAD_SIZE);
      ghost var was := st.Keys;
      st := st[page := page.State()];
      repr := repr + {page, page.metas};
      forall p | p in st
        ensures p in repr && p.metas in repr && PageOk(p)
      {
        if p != page { assert old(PageOk(p)); }
      }
      forall p, q | p in st && q in st
        ensures OwnMemory(p, q)
      {
        if p in was && q in was { assert OwnMemory(p, q); }
      }
    }

    // It joins the list.
    method ListAdd(page: SlabPage, isMinor: bool, ghost was: set<SlabPage>)
      requires page !in was && st.Keys == was + {page}
      requires multiset(minor) + multiset(common) + multiset(allocMinor) + multiset(allocCommon) == multiset(was)
      modifies this`minor, this`common
      ensures Listed()
      ensures minor == (if isMinor then [page] else []) + old(minor)
              && common == (if isMinor then [] else [page]) + old(common)
    {
      OneMore(was, page);
      if isMinor {
        minor := [page] + minor;
      } else {
        common := [page] + common;
      }
    }

    method AddPage(isMinor: bool) returns (page: SlabPage)
      requires Listed() && Synced()
      modifies this
      ensures fresh(page) && fresh(page.metas) && page !in old(st) && st == old(st)[page := page.State()]
              && fresh(repr - old(repr))
      ensures Listed() && Synced() && Inv(st[page]) && Used(st[page]) == map[]
      ensures forall sz :: sz <= SLAB_SIZE_MAX ==> !NoFit(st[page], sz)
    {
      page := NewPage();
      ListAdd(page, isMinor, old(st.Keys));
    }

    // A request for which no page on the list has room.
    method AllocOnNewPage(isMinor: bool, sz: int) returns (page: SlabPage, mem: int)
      requires Valid() && META_SIZE <= sz <= SLAB_SIZE_MAX && sz % META_SIZE == 0
      modifies this
      ensures Valid() && fresh(page) && fresh(page.metas) && st.Keys == old(st.Keys) + {page} && fresh(repr - old(repr))
      ensures page !in old(st) && Serves(old(st), st, page, mem, sz) && SetAside(page, isMinor)
    {
      page := AddPage(isMinor);
      ghost var p := st[page];
      mem := PageAlloc(page, isMinor, sz);
      assert st == old(st)[page := Allocated(p, mem - META_SIZE, sz)];
      AllocServes(old(st), page, p, mem, sz);
    }

    // Null if the request is empty or too large. Otherwise it is served by the
    // first page on the list that can, or by a new page if none can.
    method Alloc(size: nat) returns (page: SlabPage?, mem: int)
      requires Valid() && size <= SIZE_LIMIT - 8
      modifies this, repr
      ensures Valid() && fresh(repr - old(repr))
      ensures page == null <==> size == 0 || size > 1024
      ensures page == null ==> st == old(st)
      ensures page != null ==> Serves(old(st), st, page, mem, Align(size)) && size <= Align(size)
      ensures page != null ==> SetAside(page, Align(size) <= SLAB_SIZE_MINOR)
      ensures page != null && page !in old(st) ==>
                AllRefuse(old(st), old(if size <= 128 then minor else common), Align(size))
      ensures page != null && page in old(st) ==>
                FirstToServe(old(st), old(if size <= 128 then minor else common), page, mem, Align(size))
    {
      if size == 0 {
        return null, -1;
      }
      AlignClass(size);
      var sz := Align(size);
      if sz > SLAB_SIZE_MAX {
        return null, -1;
      }
      page, mem := ListAlloc(sz <= SLAB_SIZE_MINOR, sz);
      if page == null {
        page, mem := AllocOnNewPage(sz <= SLAB_SIZE_MINOR, sz);
      }
    }

    // The page itself takes the chunk back; the snapshot follows.
    method GiveBack(page: SlabPage, s: int)
      requires Synced() && page in st && s in Used(st[page])
      modifies this`st, page, page.metas
      ensures Synced() && st == old(st)[page := page.State()] && Inv(st[page])
      ensures Used(st[page]) == Used(old(st[page])) - {s}
    {
      assert PageOk(page);
      page.Free(s);
      st := st[page := page.State()];
      forall p | p in st
        ensures p in repr && p.metas in repr && PageOk(p)
      {
        if p != page { assert old(PageOk(p)) && OwnMemory(p, page); }
      }
    }

    // The snapshot loses a page that is on no list any more.
    ghost method Forget(page: SlabPage)
      requires Synced() && page in st
      modifies this`st
      ensures Synced() && st == old(st) - {page}
    {
      st := st - {page};
      forall p | p in st
        ensures p in repr && p.metas in repr && PageOk(p)
      {
        assert old(PageOk(p));
      }
      forall p, q | p in st && q in st
        ensures OwnMemory(p, q)
      {
        assert OwnMemory(p, q);
      }
    }

    // An empty page goes back to the system.
    method DropPage(page: SlabPage)
      requires Listed() && Synced() && page in st
      modifies this
      ensures Listed() && Synced() && st == old(st) - {page}
    {
      ListDel(page);
      Forget(page);
      assert st.Keys == old(st.Keys) - {page};
      OneMore(st.Keys, page);
      assert st.Keys + {page} == old(st.Keys);
      Cancel(multiset(minor) + multiset(common) + multiset(allocMinor) + multiset(allocCommon),
             multiset(st.Keys), page);
    }

    // The page moves to the list for the chunk's size, then takes the chunk back.
    method TakeBack(page: SlabPage, s: int)
      requires Listed() && Synced() && page in st && s in Used(st[page])
      modifies this, page, page.metas
      ensures Offered(page, Used(old(st[page]))[s])
      ensures Listed() && Synced() && st == old(st)[page := page.State()] && Inv(st[page])
      ensures Used(st[page]) == Used(old(st[page])) - {s}
    {
      assert PageOk(page);
      PageInsert(page, page.metas[s].size);
      GiveBack(page, s);
      assert st.Keys == old(st.Keys);
    }

    // The chunk behind `mem` comes back; its page goes with its last chunk.
    method Free(page: SlabPage, mem: int)
      requires Valid() && page in st && mem - META_SIZE in Used(st[page])
      modifies this, page, page.metas
      ensures Valid()
      ensures Returned(old(st), st, page, mem - META_SIZE)
      ensures page in st ==> Offered(page, Used(old(st[page]))[mem - META_SIZE])
    {
      var s := mem - META_SIZE;
      TakeBack(page, s);
      ghost var p := st[page];
      if page.remain + PAGE_HEAD_SIZE == PAGE_SIZE {
        DropPage(page);
        assert st == old(st) - {page};
      }
      FreeReturns(old(st), page, p, s);
    }
  }

  // The place of a chunk before a free one is right before that one.
  lemma NextSpot(p: Page, s: int)
    requires Inv(p) && s in p.c && p.m[s].alloc && IsFree(p.c, p.m, End(p.m, s))
    ensures Spot(p, s, p.m[End(p.m, s)].prev)
    ensures var pr := p.m[End(p.m, s)].prev; After(p, pr) == End(p.m, s)
    ensures var pr, nx := p.m[End(p.m, s)].prev, p.m[End(p.m, s)].next; pr != -1 ==> nx != pr && (nx != -1 ==> nx != s)
  {
    var e := End(p.m, s);
    assert TileOk(p.c, p.m, s) && NextOk(p.c, p.m, e) && PrevOk(p.c, p.m, e);
    var pr := p.m[e].prev;
    if pr != -1 {
      assert NextOk(p.c, p.m, pr) && Apart(p.c, p.m, s, pr);
    }
  }
}