// One page of the slab allocator: chunk headers inside the page, and the
// doubly linked free list that they carry as offsets.
module SlabModel {
  const META_SIZE := 8
  const PAGE_SIZE := 4096
  const PAGE_HEAD_SIZE := 24

  // A chunk header. No neighbour in the free list is -1.
  datatype Meta = Meta(size: int, alloc: bool, next: int, prev: int)

  // A page: the offsets `c` of its chunk headers, what is stored at each
  // offset, the first free chunk and the bytes left.
  datatype Page = Page(c: set<int>, m: seq<Meta>, free: int, remain: int)

  ghost function End(m: seq<Meta>, s: int): int
    requires 0 <= s < |m|
  {
    s + META_SIZE + m[s].size
  }

  ghost predicate InPage(c: set<int>, m: seq<Meta>) {
    |m| == PAGE_SIZE && PAGE_HEAD_SIZE in c && forall s :: s in c ==> PAGE_HEAD_SIZE <= s < PAGE_SIZE
  }

  // A chunk is followed by the next one or the end of the page.
  ghost predicate TileOk(c: set<int>, m: seq<Meta>, s: int)
    requires InPage(c, m) && s in c
  {
    m[s].size >= META_SIZE && End(m, s) <= PAGE_SIZE && (End(m, s) in c || End(m, s) == PAGE_SIZE)
  }

  ghost predicate Apart(c: set<int>, m: seq<Meta>, s: int, t: int)
    requires InPage(c, m) && s in c && t in c
  {
    s < t ==> End(m, s) <= t
  }

  ghost predicate IsFree(c: set<int>, m: seq<Meta>, s: int)
    requires InPage(c, m)
  {
    s in c && !m[s].alloc
  }

  // After a free chunk comes a used one.
  ghost predicate MergedOk(c: set<int>, m: seq<Meta>, s: int)
    requires InPage(c, m) && s in c
  {
    !m[s].alloc && End(m, s) in c ==> m[End(m, s)].alloc
  }

  ghost predicate NextOk(c: set<int>, m: seq<Meta>, s: int)
    requires InPage(c, m) && s in c
  {
    var n := m[s].next;
    if m[s].alloc then n == -1
    else if n == -1 then forall t :: IsFree(c, m, t) ==> t <= s
    else IsFree(c, m, n) && s < n && m[n].prev == s && forall t :: IsFree(c, m, t) ==> t <= s || n <= t
  }

  ghost predicate PrevOk(c: set<int>, m: seq<Meta>, s: int)
    requires InPage(c, m) && s in c
  {
    var p := m[s].prev;
    if m[s].alloc then p == -1
    else if p == -1 then forall t :: IsFree(c, m, t) ==> s <= t
    else IsFree(c, m, p) && p < s && m[p].next == s
  }

  ghost predicate HeadOk(c: set<int>, m: seq<Meta>, free: int)
    requires InPage(c, m)
  {
    if free == -1 then forall t :: !IsFree(c, m, t)
    else IsFree(c, m, free) && forall t :: IsFree(c, m, t) ==> free <= t
  }

  // Chunks tile the page, and the list holds exactly the free ones, in the
  // order of their addresses.
  ghost predicate Linked(p: Page) {
    && InPage(p.c, p.m)
    && (forall s {:trigger TileOk(p.c, p.m, s)} :: s in p.c ==> TileOk(p.c, p.m, s))
    && (forall s, t {:trigger Apart(p.c, p.m, s, t)} :: s in p.c && t in p.c ==> Apart(p.c, p.m, s, t))
    && (forall s {:trigger NextOk(p.c, p.m, s)} :: s in p.c ==> NextOk(p.c, p.m, s))
    && (forall s {:trigger PrevOk(p.c, p.m, s)} :: s in p.c ==> PrevOk(p.c, p.m, s))
    && HeadOk(p.c, p.m, p.free)
  }

  // No two neighbours are both free.
  ghost predicate Merged(p: Page)
    requires InPage(p.c, p.m)
  {
    forall s {:trigger MergedOk(p.c, p.m, s)} :: s in p.c ==> MergedOk(p.c, p.m, s)
  }

  // Bytes of the free chunks, headers included, from the chunk at s on.
  ghost function FreeBytes(m: seq<Meta>, s: int): int
    decreases if s < 0 then 0 else |m| - s
  {
    if !(0 <= s < |m|) || m[s].size < 0 then 0
    else (if m[s].alloc then 0 else META_SIZE + m[s].size) + FreeBytes(m, End(m, s))
  }

  ghost predicate UnitsOk(m: seq<Meta>, s: int)
    requires 0 <= s < |m|
  {
    m[s].size % META_SIZE == 0
  }

  ghost predicate Units(p: Page)
    requires InPage(p.c, p.m)
  {
    forall s {:trigger UnitsOk(p.m, s)} :: s in p.c ==> UnitsOk(p.m, s)
  }

  ghost predicate Inv(p: Page) {
    Linked(p) && Merged(p) && Units(p) && p.remain == FreeBytes(p.m, PAGE_HEAD_SIZE)
  }

  // ------------------------------------------------------------- counting bytes

  // The chunks from a up to s are alike in m and m'.
  ghost predicate Alike(c: set<int>, m: seq<Meta>, m': seq<Meta>, a: int, s: int)
    requires InPage(c, m)
  {
    |m'| == |m| && forall t :: t in c && a <= t < s ==> m'[t].size == m[t].size && m'[t].alloc == m[t].alloc
  }

  // Where two pages agree they differ by as much as behind that stretch.
  lemma {:induction false} SameBefore(p: Page, m': seq<Meta>, a: int, s: int)
    requires Linked(p) && a in p.c && s in p.c && a <= s && Alike(p.c, p.m, m', a, s)
    ensures FreeBytes(m', a) - FreeBytes(p.m, a) == FreeBytes(m', s) - FreeBytes(p.m, s)
    decreases s - a
  {
    if a < s {
      assert TileOk(p.c, p.m, a) && Apart(p.c, p.m, a, s);
      SameBefore(p, m', End(p.m, a), s);
      assert End(m', a) == End(p.m, a);
    }
  }

  lemma {:induction false} SameBehind(p: Page, m': seq<Meta>, s: int)
    requires Linked(p) && (s in p.c || s == PAGE_SIZE) && Alike(p.c, p.m, m', s, PAGE_SIZE)
    ensures FreeBytes(m', s) == FreeBytes(p.m, s)
    decreases PAGE_SIZE - s
  {
    if s in p.c {
      assert TileOk(p.c, p.m, s);
      SameBehind(p, m', End(p.m, s));
      assert End(m', s) == End(p.m, s);
    }
  }

  // --------------------------------------------------- four changes to a page

  // Free chunk s leaves the list and is handed out.
  ghost function Unlink(p: Page, s: int): Page
    requires 0 <= s < |p.m|
  {
    var pr, nx := p.m[s].prev, p.m[s].next;
    Page(p.c,
         seq(|p.m|, i requires 0 <= i < |p.m| =>
           if i == s then p.m[i].(alloc := true, next := -1, prev := -1)
           else if i == pr then p.m[i].(next := nx)
           else if i == nx then p.m[i].(prev := pr)
           else p.m[i]),
         if p.free == s then nx else p.free,
         p.remain - META_SIZE - p.m[s].size)
  }

  // The free chunk after pr in the list, or the first one.
  ghost function After(p: Page, pr: int): int {
    if 0 <= pr < |p.m| then p.m[pr].next else p.free
  }

  // Used chunk s becomes free and enters the list behind pr.
  ghost function Link(p: Page, s: int, pr: int): Page
    requires 0 <= s < |p.m|
  {
    var nx := After(p, pr);
    Page(p.c,
         seq(|p.m|, i requires 0 <= i < |p.m| =>
           if i == s then p.m[i].(alloc := false, next := nx, prev := pr)
           else if i == pr then p.m[i].(next := s)
           else if i == nx then p.m[i].(prev := s)
           else p.m[i]),
         if pr == -1 then s else p.free,
         p.remain + META_SIZE + p.m[s].size)
  }

  // Free chunk s keeps sz bytes; the rest becomes a free chunk of its own.
  ghost function Cut(p: Page, s: int, sz: int): Page
    requires 0 <= s < |p.m|
  {
    var nx, t := p.m[s].next, s + META_SIZE + sz;
    Page(p.c + {t},
         seq(|p.m|, i requires 0 <= i < |p.m| =>
           if i == s then p.m[i].(size := sz, next := t)
           else if i == t then Meta(p.m[s].size - sz - META_SIZE, false, nx, s)
           else if i == nx then p.m[i].(prev := t)
           else p.m[i]),
         p.free, p.remain)
  }

  // Free chunk a swallows its free neighbour b.
  ghost function Absorb(p: Page, a: int, b: int): Page
    requires 0 <= a < |p.m| && 0 <= b < |p.m|
  {
    var nx := p.m[b].next;
    Page(p.c - {b},
         seq(|p.m|, i requires 0 <= i < |p.m| =>
           if i == a then p.m[i].(size := p.m[a].size + META_SIZE + p.m[b].size, next := nx)
           else if i == nx then p.m[i].(prev := a)
           else p.m[i]),
         p.free, p.remain)
  }

  lemma UnlinkNext(p: Page, s: int, t: int)
    requires Linked(p) && IsFree(p.c, p.m, s) && t in p.c
    ensures NextOk(p.c, Unlink(p, s).m, t)
  {
    var m' := Unlink(p, s).m;
    assert forall u {:trigger IsFree(p.c, m', u)} :: IsFree(p.c, m', u) <==> IsFree(p.c, p.m, u) && u != s;
    assert NextOk(p.c, p.m, s) && PrevOk(p.c, p.m, s) && NextOk(p.c, p.m, t) && PrevOk(p.c, p.m, t);
  }

  lemma UnlinkPrev(p: Page, s: int, t: int)
    requires Linked(p) && IsFree(p.c, p.m, s) && t in p.c
    ensures PrevOk(p.c, Unlink(p, s).m, t)
  {
    var m' := Unlink(p, s).m;
    assert forall u {:trigger IsFree(p.c, m', u)} :: IsFree(p.c, m', u) <==> IsFree(p.c, p.m, u) && u != s;
    assert NextOk(p.c, p.m, s) && PrevOk(p.c, p.m, s) && NextOk(p.c, p.m, t) && PrevOk(p.c, p.m, t);
  }

  lemma UnlinkHead(p: Page, s: int)
    requires Linked(p) && IsFree(p.c, p.m, s)
    ensures HeadOk(p.c, Unlink(p, s).m, Unlink(p, s).free)
  {
    var m' := Unlink(p, s).m;
    assert forall u {:trigger IsFree(p.c, m', u)} :: IsFree(p.c, m', u) <==> IsFree(p.c, p.m, u) && u != s;
    assert NextOk(p.c, p.m, s) && PrevOk(p.c, p.m, s);
  }

  // Tiling depends on the sizes alone.
  lemma SameSizes(p: Page, m': seq<Meta>)
    requires Linked(p) && |m'| == |p.m| && forall t :: t in p.c ==> m'[t].size == p.m[t].size
    ensures forall t {:trigger TileOk(p.c, m', t)} :: t in p.c ==> TileOk(p.c, m', t)
    ensures forall t, u {:trigger Apart(p.c, m', t, u)} :: t in p.c && u in p.c ==> Apart(p.c, m', t, u)
  {
    forall t | t in p.c
      ensures TileOk(p.c, m', t)
    {
      assert TileOk(p.c, p.m, t);
    }
    forall t, u | t in p.c && u in p.c
      ensures Apart(p.c, m', t, u)
    {
      assert Apart(p.c, p.m, t, u);
    }
  }

  lemma UnlinkOk(p: Page, s: int)
    requires Linked(p) && IsFree(p.c, p.m, s)
    ensures Linked(Unlink(p, s))
  {
    var p' := Unlink(p, s);
    SameSizes(p, p'.m);
    UnlinkHead(p, s);
    forall t | t in p'.c
      ensures NextOk(p'.c, p'.m, t) && PrevOk(p'.c, p'.m, t)
    {
      UnlinkNext(p, s, t);
      UnlinkPrev(p, s, t);
    }
  }

  lemma UnlinkBytes(p: Page, s: int)
    requires Linked(p) && IsFree(p.c, p.m, s)
    ensures FreeBytes(Unlink(p, s).m, PAGE_HEAD_SIZE) == FreeBytes(p.m, PAGE_HEAD_SIZE) - META_SIZE - p.m[s].size
  {
    var m' := Unlink(p, s).m;
    assert TileOk(p.c, p.m, s);
    SameBefore(p, m', PAGE_HEAD_SIZE, s);
    SameBehind(p, m', End(p.m, s));
    assert End(m', s) == End(p.m, s);
  }

  // The place in the list for chunk s is right behind pr.
  ghost predicate Spot(p: Page, s: int, pr: int)
    requires InPage(p.c, p.m)
  {
    && s in p.c && p.m[s].alloc
    && if pr == -1 then forall t :: IsFree(p.c, p.m, t) ==> s < t
       else IsFree(p.c, p.m, pr) && pr < s && forall t :: IsFree(p.c, p.m, t) ==> t <= pr || s < t
  }

  lemma LinkNext(p: Page, s: int, pr: int, t: int)
    requires Linked(p) && Spot(p, s, pr) && t in p.c
    ensures NextOk(p.c, Link(p, s, pr).m, t)
  {
    var m' := Link(p, s, pr).m;
    assert forall u {:trigger IsFree(p.c, m', u)} :: IsFree(p.c, m', u) <==> IsFree(p.c, p.m, u) || u == s;
    assert NextOk(p.c, p.m, t) && PrevOk(p.c, p.m, t) && (pr != -1 ==> NextOk(p.c, p.m, pr));
    assert IsFree(p.c, p.m, t) <==> !p.m[t].alloc;
  }

  lemma LinkPrev(p: Page, s: int, pr: int, t: int)
    requires Linked(p) && Spot(p, s, pr) && t in p.c
    ensures PrevOk(p.c, Link(p, s, pr).m, t)
  {
    var m' := Link(p, s, pr).m;
    assert forall u {:trigger IsFree(p.c, m', u)} :: IsFree(p.c, m', u) <==> IsFree(p.c, p.m, u) || u == s;
    assert NextOk(p.c, p.m, t) && PrevOk(p.c, p.m, t) && (pr != -1 ==> NextOk(p.c, p.m, pr));
    assert IsFree(p.c, p.m, t) <==> !p.m[t].alloc;
  }

  lemma LinkHead(p: Page, s: int, pr: int)
    requires Linked(p) && Spot(p, s, pr)
    ensures HeadOk(p.c, Link(p, s, pr).m, Link(p, s, pr).free)
  {
    var m' := Link(p, s, pr).m;
    assert forall u {:trigger IsFree(p.c, m', u)} :: IsFree(p.c, m', u) <==> IsFree(p.c, p.m, u) || u == s;
  }

  lemma LinkOk(p: Page, s: int, pr: int)
    requires Linked(p) && Spot(p, s, pr)
    ensures Linked(Link(p, s, pr))
  {
    var p' := Link(p, s, pr);
    SameSizes(p, p'.m);
    LinkHead(p, s, pr);
    forall t | t in p'.c
      ensures NextOk(p'.c, p'.m, t) && PrevOk(p'.c, p'.m, t)
    {
      LinkNext(p, s, pr, t);
      LinkPrev(p, s, pr, t);
    }
  }

  lemma LinkBytes(p: Page, s: int, pr: int)
    requires Linked(p) && Spot(p, s, pr)
    ensures FreeBytes(Link(p, s, pr).m, PAGE_HEAD_SIZE) == FreeBytes(p.m, PAGE_HEAD_SIZE) + META_SIZE + p.m[s].size
  {
    var m' := Link(p, s, pr).m;
    assert TileOk(p.c, p.m, s);
    SameBefore(p, m', PAGE_HEAD_SIZE, s);
    SameBehind(p, m', End(p.m, s));
    assert End(m', s) == End(p.m, s);
  }

  // Room for sz bytes and a further chunk.
  ghost predicate Cuttable(p: Page, s: int, sz: int)
    requires InPage(p.c, p.m)
  {
    IsFree(p.c, p.m, s) && sz >= META_SIZE && p.m[s].size >= sz + META_SIZE + META_SIZE
  }

  lemma CutTiles(p: Page, s: int, sz: int)
    requires Linked(p) && Cuttable(p, s, sz)
    ensures var p' := Cut(p, s, sz);
            && s + META_SIZE + sz !in p.c && InPage(p'.c, p'.m)
            && (forall t {:trigger TileOk(p'.c, p'.m, t)} :: t in p'.c ==> TileOk(p'.c, p'.m, t))
            && (forall t, u {:trigger Apart(p'.c, p'.m, t, u)} :: t in p'.c && u in p'.c ==> Apart(p'.c, p'.m, t, u))
  {
    var p' := Cut(p, s, sz);
    var n := s + META_SIZE + sz;
    assert TileOk(p.c, p.m, s);
    assert n in p.c ==> Apart(p.c, p.m, s, n);
    forall t | t in p'.c
      ensures TileOk(p'.c, p'.m, t)
    {
      if t != n { assert TileOk(p.c, p.m, t); }
    }
    forall t, u | t in p'.c && u in p'.c
      ensures Apart(p'.c, p'.m, t, u)
    {
      if t != n && u != n { assert Apart(p.c, p.m, t, u); }
      if t != n && u == n { assert Apart(p.c, p.m, t, s) && Apart(p.c, p.m, s, t) && TileOk(p.c, p.m, t); }
      if t == n && u != n { assert Apart(p.c, p.m, s, u); }
    }
  }

  lemma CutNext(p: Page, s: int, sz: int, t: int)
    requires Linked(p) && Cuttable(p, s, sz) && t in Cut(p, s, sz).c
    requires InPage(Cut(p, s, sz).c, Cut(p, s, sz).m) && s + META_SIZE + sz !in p.c
    ensures NextOk(Cut(p, s, sz).c, Cut(p, s, sz).m, t)
  {
    var p' := Cut(p, s, sz);
    var n := s + META_SIZE + sz;
    assert forall u {:trigger IsFree(p'.c, p'.m, u)} :: IsFree(p'.c, p'.m, u) <==> IsFree(p.c, p.m, u) || u == n;
    assert NextOk(p.c, p.m, s);
    assert p.m[s].next != -1 ==> Apart(p.c, p.m, s, p.m[s].next);
    if t != n {
      assert NextOk(p.c, p.m, t) && PrevOk(p.c, p.m, t) && Apart(p.c, p.m, s, t);
    }
  }

  lemma CutPrev(p: Page, s: int, sz: int, t: int)
    requires Linked(p) && Cuttable(p, s, sz) && t in Cut(p, s, sz).c
    requires InPage(Cut(p, s, sz).c, Cut(p, s, sz).m) && s + META_SIZE + sz !in p.c
    ensures PrevOk(Cut(p, s, sz).c, Cut(p, s, sz).m, t)
  {
    var p' := Cut(p, s, sz);
    var n := s + META_SIZE + sz;
    assert forall u {:trigger IsFree(p'.c, p'.m, u)} :: IsFree(p'.c, p'.m, u) <==> IsFree(p.c, p.m, u) || u == n;
    assert NextOk(p.c, p.m, s);
    assert p.m[s].next != -1 ==> Apart(p.c, p.m, s, p.m[s].next);
    if t != n {
      assert NextOk(p.c, p.m, t) && PrevOk(p.c, p.m, t) && Apart(p.c, p.m, s, t);
    }
  }

  lemma CutOk(p: Page, s: int, sz: int)
    requires Linked(p) && Cuttable(p, s, sz)
    ensures Linked(Cut(p, s, sz)) && s + META_SIZE + sz !in p.c
  {
    var p' := Cut(p, s, sz);
    CutTiles(p, s, sz);
    forall t | t in p'.c
      ensures NextOk(p'.c, p'.m, t) && PrevOk(p'.c, p'.m, t)
    {
      CutNext(p, s, sz, t);
      CutPrev(p, s, sz, t);
    }
    assert HeadOk(p'.c, p'.m, p'.free) by {
      assert forall u {:trigger IsFree(p'.c, p'.m, u)} :: IsFree(p'.c, p'.m, u) <==>
          IsFree(p.c, p.m, u) || u == s + META_SIZE + sz;
    }
  }

  lemma CutBytes(p: Page, s: int, sz: int)
    requires Linked(p) && Cuttable(p, s, sz)
    ensures FreeBytes(Cut(p, s, sz).m, PAGE_HEAD_SIZE) == FreeBytes(p.m, PAGE_HEAD_SIZE)
  {
    var m' := Cut(p, s, sz).m;
    var n := s + META_SIZE + sz;
    CutTiles(p, s, sz);
    assert TileOk(p.c, p.m, s);
    SameBefore(p, m', PAGE_HEAD_SIZE, s);
    SameBehind(p, m', End(p.m, s));
    assert End(m', s) == n && End(m', n) == End(p.m, s);
  }

  ghost predicate Neighbours(p: Page, a: int, b: int)
    requires InPage(p.c, p.m)
  {
    IsFree(p.c, p.m, a) && IsFree(p.c, p.m, b) && End(p.m, a) == b
  }

  lemma AbsorbTiles(p: Page, a: int, b: int)
    requires Linked(p) && Neighbours(p, a, b)
    ensures var p' := Absorb(p, a, b);
            && a < b && InPage(p'.c, p'.m)
            && (forall t {:trigger TileOk(p'.c, p'.m, t)} :: t in p'.c ==> TileOk(p'.c, p'.m, t))
            && (forall t, u {:trigger Apart(p'.c, p'.m, t, u)} :: t in p'.c && u in p'.c ==> Apart(p'.c, p'.m, t, u))
  {
    var p' := Absorb(p, a, b);
    assert TileOk(p.c, p.m, a) && TileOk(p.c, p.m, b);
    forall t | t in p'.c
      ensures TileOk(p'.c, p'.m, t)
    {
      assert TileOk(p.c, p.m, t) && Apart(p.c, p.m, t, a) && Apart(p.c, p.m, a, t);
    }
    forall t, u | t in p'.c && u in p'.c
      ensures Apart(p'.c, p'.m, t, u)
    {
      assert Apart(p.c, p.m, t, u) && Apart(p.c, p.m, b, u);
      assert Apart(p.c, p.m, u, b) && TileOk(p.c, p.m, u);
    }
  }

  lemma AbsorbNext(p: Page, a: int, b: int, t: int)
    requires Linked(p) && Neighbours(p, a, b) && a < b && t in p.c && t != b
    requires InPage(Absorb(p, a, b).c, Absorb(p, a, b).m)
    ensures NextOk(Absorb(p, a, b).c, Absorb(p, a, b).m, t)
  {
    var p' := Absorb(p, a, b);
    assert forall u {:trigger IsFree(p'.c, p'.m, u)} :: IsFree(p'.c, p'.m, u) <==> IsFree(p.c, p.m, u) && u != b;
    assert NextOk(p.c, p.m, a) && NextOk(p.c, p.m, b) && Apart(p.c, p.m, a, t) && Apart(p.c, p.m, a, b);
    assert NextOk(p.c, p.m, t) && PrevOk(p.c, p.m, t);
    assert p.m[a].next != -1 ==> Apart(p.c, p.m, a, p.m[a].next);
    assert p.m[a].next == b;
  }

  lemma AbsorbPrev(p: Page, a: int, b: int, t: int)
    requires Linked(p) && Neighbours(p, a, b) && a < b && t in p.c && t != b
    requires InPage(Absorb(p, a, b).c, Absorb(p, a, b).m)
    ensures PrevOk(Absorb(p, a, b).c, Absorb(p, a, b).m, t)
  {
    var p' := Absorb(p, a, b);
    assert forall u {:trigger IsFree(p'.c, p'.m, u)} :: IsFree(p'.c, p'.m, u) <==> IsFree(p.c, p.m, u) && u != b;
    assert NextOk(p.c, p.m, a) && NextOk(p.c, p.m, b) && Apart(p.c, p.m, a, t) && Apart(p.c, p.m, a, b);
    assert NextOk(p.c, p.m, t) && PrevOk(p.c, p.m, t);
    assert p.m[a].next != -1 ==> Apart(p.c, p.m, a, p.m[a].next);
    assert p.m[a].next == b;
  }

  lemma AbsorbOk(p: Page, a: int, b: int)
    requires Linked(p) && Neighbours(p, a, b)
    ensures Linked(Absorb(p, a, b))
  {
    var p' := Absorb(p, a, b);
    AbsorbTiles(p, a, b);
    forall t | t in p'.c
      ensures NextOk(p'.c, p'.m, t) && PrevOk(p'.c, p'.m, t)
    {
      AbsorbNext(p, a, b, t);
      AbsorbPrev(p, a, b, t);
    }
    assert HeadOk(p'.c, p'.m, p'.free) by {
      assert forall u {:trigger IsFree(p'.c, p'.m, u)} :: IsFree(p'.c, p'.m, u) <==> IsFree(p.c, p.m, u) && u != b;
    }
  }

  lemma AbsorbBytes(p: Page, a: int, b: int)
    requires Linked(p) && Neighbours(p, a, b)
    ensures FreeBytes(Absorb(p, a, b).m, PAGE_HEAD_SIZE) == FreeBytes(p.m, PAGE_HEAD_SIZE)
  {
    var m' := Absorb(p, a, b).m;
    assert TileOk(p.c, p.m, a) && TileOk(p.c, p.m, b);
    SameBefore(p, m', PAGE_HEAD_SIZE, a);
    SameBehind(p, m', End(p.m, b));
    assert End(m', a) == End(p.m, b);
    assert FreeBytes(p.m, a) == META_SIZE + p.m[a].size + FreeBytes(p.m, b);
  }

  // ------------------------------------------------------- what a page promises

  // The chunks handed out and their sizes.
  ghost function Used(p: Page): map<int, int> {
    map s | s in p.c && 0 <= s < |p.m| && p.m[s].alloc :: p.m[s].size
  }

  // Two pages whose chunks have the same headers; what lies elsewhere in the
  // page does not matter.
  ghost predicate Agree(p: Page, p': Page) {
    && p'.c == p.c && |p'.m| == |p.m| && p'.free == p.free && p'.remain == p.remain
    && forall s :: s in p.c && 0 <= s < |p.m| ==> p'.m[s] == p.m[s]
  }

  lemma AgreeLinked(p: Page, p': Page)
    requires Linked(p) && Agree(p, p')
    ensures Linked(p')
  {
    SameSizes(p, p'.m);
    assert forall u {:trigger IsFree(p.c, p'.m, u)} :: IsFree(p.c, p'.m, u) <==> IsFree(p.c, p.m, u);
    forall t | t in p'.c
      ensures NextOk(p'.c, p'.m, t) && PrevOk(p'.c, p'.m, t)
    {
      assert NextOk(p.c, p.m, t) && PrevOk(p.c, p.m, t);
    }
  }

  lemma AgreeOk(p: Page, p': Page)
    requires Inv(p) && Agree(p, p')
    ensures Inv(p') && Used(p') == Used(p)
  {
    AgreeLinked(p, p');
    SameBehind(p, p'.m, PAGE_HEAD_SIZE);
    forall t | t in p'.c
      ensures MergedOk(p'.c, p'.m, t) && UnitsOk(p'.m, t)
    {
      assert MergedOk(p.c, p.m, t) && UnitsOk(p.m, t);
    }
  }

  lemma UnlinkMerged(p: Page, s: int)
    requires Linked(p) && IsFree(p.c, p.m, s)
    requires forall t {:trigger MergedOk(p.c, p.m, t)} :: t in p.c && t != s && End(p.m, t) != s ==>
             MergedOk(p.c, p.m, t)
    ensures Merged(Unlink(p, s))
  {
    var p' := Unlink(p, s);
    forall t | t in p'.c
      ensures MergedOk(p'.c, p'.m, t)
    {
      assert TileOk(p.c, p.m, t);
      if t != s && End(p.m, t) != s { assert MergedOk(p.c, p.m, t); }
    }
  }

  lemma LinkMerged(p: Page, s: int, pr: int, t: int)
    requires Linked(p) && Merged(p) && Spot(p, s, pr) && t in p.c
    requires t == s ==> !IsFree(p.c, p.m, End(p.m, s))
    requires t == pr ==> End(p.m, pr) != s
    ensures MergedOk(p.c, Link(p, s, pr).m, t)
  {
    assert MergedOk(p.c, p.m, t) && TileOk(p.c, p.m, t);
    assert IsFree(p.c, p.m, t) <==> !p.m[t].alloc;
    if pr != -1 { assert Apart(p.c, p.m, t, pr) && TileOk(p.c, p.m, pr); }
  }

  lemma AbsorbMerged(p: Page, a: int, b: int, t: int)
    requires Linked(p) && Neighbours(p, a, b) && a < b && t in p.c && t != b
    requires InPage(Absorb(p, a, b).c, Absorb(p, a, b).m)
    requires if t == a then MergedOk(p.c, p.m, b) else MergedOk(p.c, p.m, t)
    ensures MergedOk(Absorb(p, a, b).c, Absorb(p, a, b).m, t)
  {
    assert TileOk(p.c, p.m, t) && TileOk(p.c, p.m, b) && TileOk(p.c, p.m, a);
  }

  // ------------------------------------------------------------ handing out

  // s is the first free chunk that can hold sz bytes.
  ghost predicate FirstFit(p: Page, s: int, sz: int) {
    && InPage(p.c, p.m) && IsFree(p.c, p.m, s) && sz <= p.m[s].size
    && forall t :: IsFree(p.c, p.m, t) && t < s ==> p.m[t].size < sz
  }

  ghost predicate NoFit(p: Page, sz: int) {
    InPage(p.c, p.m) && forall t :: IsFree(p.c, p.m, t) ==> p.m[t].size < sz
  }

  // Chunk s is handed out for sz bytes; what it does not need stays free if it
  // can hold a chunk.
  ghost function Allocated(p: Page, s: int, sz: int): Page
    requires 0 <= s < |p.m|
  {
    if p.m[s].size <= sz + META_SIZE then Unlink(p, s) else Unlink(Cut(p, s, sz), s)
  }

  lemma AllocatedUnits(p: Page, s: int, sz: int)
    requires Inv(p) && IsFree(p.c, p.m, s) && META_SIZE <= sz <= p.m[s].size && sz % META_SIZE == 0
    ensures p.m[s].size > sz + META_SIZE ==> Cuttable(p, s, sz)
    ensures forall t :: t in Allocated(p, s, sz).c && 0 <= t < |p.m| ==> UnitsOk(Allocated(p, s, sz).m, t)
  {
    assert UnitsOk(p.m, s);
    forall t | t in Allocated(p, s, sz).c && 0 <= t < |p.m|
      ensures UnitsOk(Allocated(p, s, sz).m, t)
    {
      if t in p.c { assert UnitsOk(p.m, t); }
    }
  }

  lemma AllocatedUsed(p: Page, s: int, sz: int)
    requires Linked(p) && IsFree(p.c, p.m, s) && sz >= META_SIZE
    requires p.m[s].size > sz + META_SIZE ==> Cuttable(p, s, sz)
    ensures InPage(Allocated(p, s, sz).c, Allocated(p, s, sz).m)
    ensures Used(Allocated(p, s, sz)) == Used(p)[s := Allocated(p, s, sz).m[s].size]
  {
    if p.m[s].size > sz + META_SIZE { CutTiles(p, s, sz); }
  }

  lemma CutMerged(p: Page, s: int, sz: int)
    requires Inv(p) && Cuttable(p, s, sz)
    ensures Linked(Cut(p, s, sz)) && Merged(Unlink(Cut(p, s, sz), s))
  {
    var q, n := Cut(p, s, sz), s + META_SIZE + sz;
    CutOk(p, s, sz);
    forall t | t in q.c && t != s && End(q.m, t) != s
      ensures MergedOk(q.c, q.m, t)
    {
      assert MergedOk(p.c, p.m, s);
      assert t != n ==> MergedOk(p.c, p.m, t) && TileOk(p.c, p.m, t) && Apart(q.c, q.m, s, t) && Apart(q.c, q.m, t, s);
    }
    UnlinkMerged(q, s);
  }

  lemma AllocatedOk(p: Page, s: int, sz: int)
    requires Inv(p) && IsFree(p.c, p.m, s) && META_SIZE <= sz <= p.m[s].size && sz % META_SIZE == 0
    ensures (p.m[s].size > sz + META_SIZE ==> Cuttable(p, s, sz))
    ensures Inv(Allocated(p, s, sz)) && p.c <= Allocated(p, s, sz).c
    ensures sz <= Allocated(p, s, sz).m[s].size <= sz + META_SIZE
    ensures Used(Allocated(p, s, sz)) == Used(p)[s := Allocated(p, s, sz).m[s].size]
  {
    AllocatedUnits(p, s, sz);
    var q := if p.m[s].size <= sz + META_SIZE then p else Cut(p, s, sz);
    if p.m[s].size <= sz + META_SIZE {
      UnlinkMerged(p, s);
    } else {
      CutBytes(p, s, sz);
      CutMerged(p, s, sz);
    }
    UnlinkOk(q, s);
    UnlinkBytes(q, s);
    AllocatedUsed(p, s, sz);
  }

  // -------------------------------------------------------------- taking back

  ghost function JoinNext(p: Page, s: int, joins: bool): Page
    requires 0 <= s < |p.m|
  {
    if joins && 0 <= End(p.m, s) < |p.m| then Absorb(p, s, End(p.m, s)) else p
  }

  // Chunk s comes back; pr is the free chunk before it in the list, if any. It
  // is joined with the neighbours that are free.
  ghost function Freed(p: Page, s: int, pr: int): Page
    requires InPage(p.c, p.m) && 0 <= s < |p.m|
  {
    var q := JoinNext(Link(p, s, pr), s, IsFree(p.c, p.m, End(p.m, s)));
    if 0 <= pr < |p.m| && End(p.m, pr) == s then Absorb(q, pr, s) else q
  }

  lemma JoinedNext(p: Page, s: int, pr: int)
    requires Inv(p) && Spot(p, s, pr)
    ensures var q := JoinNext(Link(p, s, pr), s, IsFree(p.c, p.m, End(p.m, s)));
            && Linked(q) && q.remain == FreeBytes(q.m, PAGE_HEAD_SIZE) && Used(q) == Used(p) - {s}
            && s in q.c && IsFree(q.c, q.m, s) && q.c <= p.c
            && (pr != -1 ==> pr in q.c && q.m[pr].size == p.m[pr].size)
            && forall t {:trigger MergedOk(q.c, q.m, t)} ::
                 t in q.c && !(t == pr && End(p.m, pr) == s) ==> MergedOk(q.c, q.m, t)
  {
    var q0, e := Link(p, s, pr), End(p.m, s);
    LinkOk(p, s, pr);
    LinkBytes(p, s, pr);
    assert TileOk(p.c, p.m, s);
    if IsFree(p.c, p.m, e) {
      AbsorbOk(q0, s, e);
      AbsorbBytes(q0, s, e);
      AbsorbTiles(q0, s, e);
      var q := Absorb(q0, s, e);
      if pr != -1 { assert Apart(p.c, p.m, pr, s); }
      forall t | t in q.c && !(t == pr && End(p.m, pr) == s)
        ensures MergedOk(q.c, q.m, t)
      {
        if t == s { LinkMerged(p, s, pr, e); } else { LinkMerged(p, s, pr, t); }
        AbsorbMerged(q0, s, e, t);
      }
    } else {
      forall t | t in q0.c && !(t == pr && End(p.m, pr) == s)
        ensures MergedOk(q0.c, q0.m, t)
      {
        LinkMerged(p, s, pr, t);
      }
    }
  }

  lemma FreedUnits(p: Page, s: int, pr: int)
    requires Inv(p) && Spot(p, s, pr)
    ensures forall t :: t in Freed(p, s, pr).c ==> UnitsOk(Freed(p, s, pr).m, t)
  {
    assert UnitsOk(p.m, s) && TileOk(p.c, p.m, s);
    assert pr != -1 ==> UnitsOk(p.m, pr);
    assert End(p.m, s) in p.c ==> UnitsOk(p.m, End(p.m, s));
    forall t | t in Freed(p, s, pr).c
      ensures UnitsOk(Freed(p, s, pr).m, t)
    {
      assert UnitsOk(p.m, t);
    }
  }

  lemma FreedOk(p: Page, s: int, pr: int)
    requires Inv(p) && Spot(p, s, pr)
    ensures Inv(Freed(p, s, pr)) && Used(Freed(p, s, pr)) == Used(p) - {s}
  {
    var q := JoinNext(Link(p, s, pr), s, IsFree(p.c, p.m, End(p.m, s)));
    JoinedNext(p, s, pr);
    FreedUnits(p, s, pr);
    if pr != -1 && End(p.m, pr) == s {
      assert pr in p.c && TileOk(p.c, p.m, pr);
      AbsorbOk(q, pr, s);
      AbsorbBytes(q, pr, s);
      AbsorbTiles(q, pr, s);
      var q' := Absorb(q, pr, s);
      forall t | t in q'.c
        ensures MergedOk(q'.c, q'.m, t)
      {
        if t == pr { assert MergedOk(q.c, q.m, s); } else { assert MergedOk(q.c, q.m, t); }
        AbsorbMerged(q, pr, s, t);
      }
    }
  }

  // --------------------------------------------------------------- whole page

  lemma {:induction false} FreeBytesBound(p: Page, s: int)
    requires Linked(p) && (s in p.c || s == PAGE_SIZE)
    ensures 0 <= FreeBytes(p.m, s) <= PAGE_SIZE - s
    ensures FreeBytes(p.m, s) == PAGE_SIZE - s <==> forall t :: t in p.c && t >= s ==> !p.m[t].alloc
    decreases PAGE_SIZE - s
  {
    if s in p.c {
      assert TileOk(p.c, p.m, s);
      FreeBytesBound(p, End(p.m, s));
      forall t | t in p.c && t >= s
        ensures t == s || t >= End(p.m, s)
      {
        assert Apart(p.c, p.m, s, t);
      }
    }
  }

  // Every free chunk's bytes are among those left.
  lemma FitsRemain(p: Page, s: int)
    requires Inv(p) && IsFree(p.c, p.m, s)
    ensures META_SIZE + p.m[s].size <= p.remain
  {
    UnlinkBytes(p, s);
    UnlinkOk(p, s);
    FreeBytesBound(Unlink(p, s), PAGE_HEAD_SIZE);
  }

  // All bytes are left just when nothing is handed out.
  lemma EmptyPage(p: Page)
    requires Inv(p)
    ensures p.remain + PAGE_HEAD_SIZE == PAGE_SIZE <==> Used(p) == map[]
  {
    FreeBytesBound(p, PAGE_HEAD_SIZE);
    if Used(p) == map[] {
      forall t | t in p.c
        ensures !p.m[t].alloc
      {
        assert t !in Used(p);
      }
    } else {
      var t :| t in Used(p);
    }
  }

  // The bytes behind the headers of two chunks handed out lie in the page, past
  // its head and both headers, and have nothing in common.
  lemma LiveApart(p: Page, s: int, t: int, i: int)
    requires Inv(p) && s in Used(p) && t in Used(p) && s != t
    requires s + META_SIZE <= i < s + META_SIZE + Used(p)[s]
    ensures PAGE_HEAD_SIZE <= i < PAGE_SIZE && !(t <= i < t + META_SIZE + Used(p)[t])
  {
    assert TileOk(p.c, p.m, s) && Apart(p.c, p.m, s, t) && Apart(p.c, p.m, t, s);
  }
}
