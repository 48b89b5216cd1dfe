module SkipLists {
  import opened Options
  import opened Ordering
  import opened SkipListModel

  ghost function UpperOf<T>(cmp: (T, T) -> int, s: seq<T>, k: T): (p: int)
    ensures 0 <= p <= |s|
  {
    if s != [] && cmp(s[0], k) <= 0 then 1 + UpperOf(cmp, s[1..], k) else 0
  }

  // The place behind all elements that are not above k.
  ghost predicate UpperPlace<T>(cmp: (T, T) -> int, s: seq<T>, k: T, p: int) {
    0 <= p <= |s| && forall i :: 0 <= i < |s| ==> (cmp(s[i], k) <= 0 <==> i < p)
  }

  lemma {:induction false} UpperOfIsPlace<T(!new)>(cmp: (T, T) -> int, s: seq<T>, k: T)
    requires IsComparator(cmp) && Sorted(cmp, s)
    ensures UpperPlace(cmp, s, k, UpperOf(cmp, s, k))
  {
    if s != [] && cmp(s[0], k) <= 0 {
      UpperOfIsPlace(cmp, s[1..], k);
      forall i | 0 < i < |s|
        ensures cmp(s[i], k) <= 0 <==> i < UpperOf(cmp, s, k)
      {
        assert s[i] == s[1..][i - 1];
      }
    } else if s != [] {
      forall i | 0 < i < |s|
        ensures cmp(s[i], k) > 0
      {
        Transitive(cmp, s[0], s[i], k);
      }
    }
  }

  // A new element goes behind its equals.
  lemma InsSorted<T(!new)>(cmp: (T, T) -> int, s: seq<T>, k: T)
    requires IsComparator(cmp) && Sorted(cmp, s)
    ensures Sorted(cmp, Ins(s, UpperOf(cmp, s, k), k))
  {
    var p := UpperOf(cmp, s, k);
    var t := Ins(s, p, k);
    UpperOfIsPlace(cmp, s, k);
    forall i, j | 0 <= i < j < |t|
      ensures cmp(t[i], t[j]) <= 0
    {
      assert i == p || t[i] == s[if i < p then i else i - 1];
      assert j == p || t[j] == s[if j < p then j else j - 1];
      if i == p { Transitive(cmp, k, s[j - 1], k); }
    }
  }

  // The first place whose element is not below k.
  lemma {:induction false} LowerPlace<T(!new)>(cmp: (T, T) -> int, s: seq<T>, k: T, i: int)
    requires IsComparator(cmp) && Sorted(cmp, s) && 0 <= i < |s|
    ensures cmp(s[i], k) < 0 <==> i < PlaceOf(cmp, s, k)
  {
    Transitive(cmp, s[0], k, k);
    if cmp(k, s[0]) > 0 {
      if i > 0 { LowerPlace(cmp, s[1..], k, i - 1); }
    } else if i > 0 {
      Transitive(cmp, k, s[0], s[i]);
      Transitive(cmp, s[i], k, k);
    }
  }

  // Of the elements equal to k, the first of those that reach the highest level.
  ghost predicate Chosen<T>(cmp: (T, T) -> int, elems: seq<T>, lv: seq<int>, k: T, r: int) {
    && |lv| == |elems| + 1 && 0 < r <= |elems| && cmp(elems[r - 1], k) == 0
    && forall i :: 0 < i <= |elems| && cmp(elems[i - 1], k) == 0 ==> lv[i] <= lv[r] && (i < r ==> lv[i] < lv[r])
  }

  lemma MinusSorted<T(!new)>(cmp: (T, T) -> int, s: seq<T>, p: int)
    requires Sorted(cmp, s) && 0 <= p < |s|
    ensures Sorted(cmp, Minus(s, p))
  {
    var t := Minus(s, p);
    forall i, j | 0 <= i < j < |t|
      ensures cmp(t[i], t[j]) <= 0
    {
      AtShift(t, p, s[p], i);
      AtShift(t, p, s[p], j);
    }
  }

  class SkipList<T(!new)> {
    const head: Node<T>
    const cmp: (T, T) -> int
    ghost var elems: seq<T>
    ghost var nodes: seq<Node<T>>
    ghost var lv: seq<int>
    ghost var m: Links<T>

    ghost predicate SyncAt(n: Node<T>)
      requires n in m
      reads this`m, n
    {
      n.link == m[n] && |m[n]| == LEVELS
    }

    // The links of the nodes are those of the snapshot.
    ghost predicate Sync()
      reads this`m, m.Keys
    {
      forall n {:trigger SyncAt(n)} :: n in m ==> SyncAt(n)
    }

    ghost predicate NodeAt(nodes: seq<Node<T>>, lv: seq<int>, elems: seq<T>, i: int)
      requires 0 <= i < |nodes| == |lv| == |elems| + 1
    {
      && nodes[i].level == lv[i] && 0 <= lv[i] < LEVELS
      && if i == 0 then nodes[0] == head else nodes[i].data == Some(elems[i - 1])
    }

    // The nodes behind the head carry the elements in order.
    ghost predicate Carries()
      reads this
    {
      && |nodes| == |lv| == |elems| + 1
      && forall i {:trigger NodeAt(nodes, lv, elems, i)} :: 0 <= i < |nodes| ==>
         NodeAt(nodes, lv, elems, i) && nodes[i] in m.Keys
    }

    ghost predicate Valid()
      reads this, m.Keys
    {
      IsComparator(cmp) && Sorted(cmp, elems) && Sync() && Carries() && Linked(m, nodes, lv)
    }

    constructor (cmp: (T, T) -> int)
      requires IsComparator(cmp)
      ensures Valid() && elems == [] && fresh(m.Keys) && this.cmp == cmp
    {
      var h := new Node(None, LEVELS - 1);
      head, this.cmp := h, cmp;
      elems, nodes, lv, m := [], [h], [LEVELS - 1], map[h := h.link];
      new;
      forall l | 0 <= l < LEVELS
        ensures LevelOk(m, nodes, lv, l)
      {
        assert WantAt(m, nodes, lv, l, 0);
      }
    }

    method SetLink(n: Node<T>, l: int, k: Link<T>)
      requires Sync() && n in m && SyncAt(n) && 0 <= l < LEVELS
      modifies this`m, n`link
      ensures Sync() && m == old(m)[n := old(m[n])[l := k]] && Elsewhere(old(m), m, l)
    {
      assert SyncAt(n);
      n.link := n.link[l := k];
      m := m[n := n.link];
      forall q | q in m
        ensures SyncAt(q)
      {
        if q != n { assert old(SyncAt(q)); }
      }
    }

    method InsertNode(prev: Node<T>, node: Node<T>, l: int, ghost c: Change<T>)
      requires Sync() && c.x == node && c.v >= l && PhaseOk(m, c, l, Out) && prev == c.nodes[Before(c, l)]
      modifies this`m, m.Keys
      ensures Sync() && Elsewhere(old(m), m, l) && PhaseOk(m, c, l, Spliced)
    {
      ghost var m0 := m;
      ghost var a, b := Before(c, l), After(c, l);
      Neighbours(c, l);
      assert RelinkedAt(m, c, l, Out, a) && SyncAt(prev) && SyncAt(node);
      if b < |c.lv| { assert RelinkedAt(m, c, l, Out, b); }
      var next := prev.link[l].next;
      SetLink(prev, l, prev.link[l].(next := node));
      assert SyncAt(node);
      SetLink(node, l, node.link[l].(prev := prev, next := next));
      if next != null {
        assert SyncAt(next);
        SetLink(next, l, next.link[l].(prev := node));
      }
      forall i | 0 <= i < |c.lv| && c.lv[i] >= l
        ensures RelinkedAt(m, c, l, Spliced, i)
      {
        assert RelinkedAt(m0, c, l, Out, i);
      }
    }

    // Something is being put in.
    ghost predicate Changing(c: Change<T>)
      reads this, m.Keys
    {
      && IsComparator(cmp) && Sorted(cmp, elems) && Sync() && Carries() && ChangeOk(c)
      && c.nodes == nodes && c.lv == lv
    }

    // What the links of the node at place a say on level l.
    lemma Hop(l: int, a: int)
      requires Sync() && Carries() && LevelOk(m, nodes, lv, l) && 0 <= a < |lv| && lv[a] >= l && 0 <= l < LEVELS
      ensures |nodes[a].link| == LEVELS
      ensures var b, next := Next(lv, l, a), nodes[a].link[l].next;
              if b == |lv| then next == null
              else && a < b < |lv| && lv[b] >= l && next == nodes[b] && next.data == Some(elems[b - 1])
                   && |next.link| == LEVELS && next.link[l].span == b - a
    {
      var b := Next(lv, l, a);
      NextIs(lv, l, a);
      assert WantAt(m, nodes, lv, l, a) && NodeAt(nodes, lv, elems, a) && SyncAt(nodes[a]);
      if b < |lv| {
        Back(lv, l, a);
        assert WantAt(m, nodes, lv, l, b) && NodeAt(nodes, lv, elems, b) && SyncAt(nodes[b]);
      }
    }

    // From place `at`, to the last place on level l that is before place p.
    method Walk(from: Node<T>, l: int, data: T, ghost at: int, ghost p: int) returns (prev: Node<T>, span: int)
      requires Sync() && Carries() && LevelOk(m, nodes, lv, l) && 0 <= l < LEVELS
      requires UpperPlace(cmp, elems, data, p - 1)
      requires 0 <= at < p && from == nodes[at] && lv[at] >= l
      ensures prev == nodes[Prev(lv, l, p)] && span == Prev(lv, l, p) - at
    {
      prev, span := from, 0;
      ghost var a := at;
      Hop(l, a);
      var next := prev.link[l].next;
      while next != null && cmp(next.data.value, data) <= 0
        invariant 0 <= a < p && prev == nodes[a] && lv[a] >= l && span == a - at
        invariant |prev.link| == LEVELS && next == prev.link[l].next && (next != null ==> next.data.Some?)
        decreases |lv| - a
      {
        Hop(l, a);
        span := span + next.link[l].span;
        prev := next;
        next := next.link[l].next;
        a := Next(lv, l, a);
        Hop(l, a);
      }
      Hop(l, a);
      NextIs(lv, l, a);
      PrevUnique(lv, l, p, a);
    }

    // Level l gets the new node or, above it, a wider span.
    method Descend(prev: Node<T>, node: Node<T>, l: int, ghost c: Change<T>)
      requires Sync() && c.x == node && c.v == node.level && Phases(m, c, Down(c.v, l)) && 0 <= l < LEVELS
      requires ChangeOk(c) && prev == c.nodes[Before(c, l)]
      modifies this`m, m.Keys
      ensures Sync() && m.Keys == old(m.Keys) && Phases(m, c, Down(c.v, l - 1))
    {
      ghost var m0, a, b := m, Before(c, l), After(c, l);
      assert PhaseAt(m, c, Down(c.v, l), l);
      Neighbours(c, l);
      assert RelinkedAt(m, c, l, Out, a) && SyncAt(prev);
      var next := prev.link[l].next;
      if l <= node.level {
        InsertNode(prev, node, l, c);
      } else if next != null {
        assert RelinkedAt(m, c, l, Out, b) && SyncAt(next);
        SetLink(next, l, next.link[l].(span := next.link[l].span + 1));
      }
      if l > node.level {
        forall i | 0 <= i < |c.lv| && c.lv[i] >= l
          ensures RelinkedAt(m, c, l, In, i)
        {
          assert RelinkedAt(m0, c, l, Out, i);
          if i != b && b < |c.lv| { assert c.nodes[i] != c.nodes[b]; }
        }
      }
      PhaseSteps(c.v, l);
      PhaseStep(m0, m, c, Down(c.v, l), l, if l <= c.v then Spliced else In);
    }

    ghost predicate SpanIs(n: Node<T>, l: int, s: int)
      reads this`m
    {
      n in m && 0 <= l < |m[n]| && m[n][l].span == s
    }

    // Level l, into which the new node is spliced, gets its spans.
    method SetSpans(node: Node<T>, l: int, s: int, ghost c: Change<T>)
      requires Sync() && c.x == node && 0 <= l <= c.v < LEVELS && Phases(m, c, Up(c.v, l))
      requires ChangeOk(c) && s == c.p - Before(c, l)
      modifies this`m, m.Keys
      ensures Sync() && m.Keys == old(m.Keys) && Phases(m, c, Up(c.v, l + 1)) && SpanIs(node, l, s)
    {
      ghost var m0, b := m, After(c, l);
      assert PhaseAt(m, c, Up(c.v, l), l);
      Neighbours(c, l);
      assert SyncAt(node);
      SetLink(node, l, node.link[l].(span := s));
      assert SyncAt(node);
      var next := node.link[l].next;
      if next != null {
        assert RelinkedAt(m0, c, l, Spliced, b) && SyncAt(next);
        SetLink(next, l, next.link[l].(span := next.link[l].span - (node.link[l].span - 1)));
      }
      forall i | 0 <= i < |c.lv| && c.lv[i] >= l
        ensures RelinkedAt(m, c, l, In, i)
      {
        assert RelinkedAt(m0, c, l, Spliced, i);
        if i != b && b < |c.lv| { assert c.nodes[i] != c.nodes[b]; }
      }
      PhaseSteps(c.v, l);
      PhaseStep(m0, m, c, Up(c.v, l), l, In);
    }

    // The spans of the level that has all nodes.
    method FirstSpan(node: Node<T>, ghost c: Change<T>)
      requires Sync() && c.x == node && 0 <= c.v < LEVELS && Phases(m, c, Up(c.v, 0))
      requires ChangeOk(c) && forall i :: 0 <= i < |c.lv| ==> c.lv[i] >= 0
      modifies this`m, m.Keys
      ensures Sync() && m.Keys == old(m.Keys) && Phases(m, c, Up(c.v, 1))
      ensures SpanIs(node, 0, 1) && Before(c, 0) == c.p - 1
    {
      ghost var m0, b := m, After(c, 0);
      assert PhaseAt(m, c, Up(c.v, 0), 0);
      Neighbours(c, 0);
      assert SyncAt(node);
      SetLink(node, 0, node.link[0].(span := 1));
      forall i | 0 <= i < |c.lv| && c.lv[i] >= 0
        ensures RelinkedAt(m, c, 0, In, i)
      {
        assert RelinkedAt(m0, c, 0, Spliced, i);
      }
      PhaseSteps(c.v, 0);
      PhaseStep(m0, m, c, Up(c.v, 0), 0, In);
    }

    // The new node joins the snapshot, linked nowhere.
    method NewNode(data: T, level: int, ghost p: int) returns (node: Node<T>, ghost c: Change<T>)
      requires Sync() && Carries() && Linked(m, nodes, lv) && 0 <= level < LEVELS && 0 < p <= |lv|
      modifies this`m
      ensures Sync() && Carries() && fresh(node) && m.Keys == old(m.Keys) + {node}
      ensures node.level == level && node.data == Some(data)
      ensures c == Change(nodes, lv, p, node, level) && ChangeOk(c) && Phases(m, c, Down(c.v, LEVELS - 1))
    {
      node := new Node(Some(data), level);
      c := Change(nodes, lv, p, node, level);
      ghost var m0 := m;
      m := m[node := node.link];
      forall n | n in m
        ensures SyncAt(n)
      {
        if n != node { assert old(SyncAt(n)); }
      }
      forall i | 0 <= i < |nodes|
        ensures NodeAt(nodes, lv, elems, i) && nodes[i] in m.Keys && nodes[i] != node
      {
        assert old(NodeAt(nodes, lv, elems, i));
      }
      forall l | 0 <= l < LEVELS
        ensures LevelOk(m, nodes, lv, l)
      {
        assert LevelOk(m0, nodes, lv, l);
        forall i | 0 <= i < |lv| && lv[i] >= l
          ensures WantAt(m, nodes, lv, l, i)
        {
          assert WantAt(m0, nodes, lv, l, i);
        }
      }
      TakenOut(m, c);
    }

    lemma NodeAtIns(elems: seq<T>, c: Change<T>, data: T, j: int)
      requires ChangeOk(c) && |c.nodes| == |elems| + 1 && 0 <= j <= |c.nodes|
      requires forall i {:trigger NodeAt(c.nodes, c.lv, elems, i)} :: 0 <= i < |c.nodes| ==>
               NodeAt(c.nodes, c.lv, elems, i)
      requires c.x.level == c.v && c.x.data == Some(data)
      ensures NodeAt(Ins(c.nodes, c.p, c.x), Ins(c.lv, c.p, c.v), Ins(elems, c.p - 1, data), j)
      ensures j != c.p ==> Ins(c.nodes, c.p, c.x)[j] == c.nodes[if j < c.p then j else j - 1]
    {
      if j != c.p {
        var i := if j < c.p then j else j - 1;
        assert NodeAt(c.nodes, c.lv, elems, i);
        AtShift(c.nodes, c.p, c.x, i);
        AtShift(c.lv, c.p, c.v, i);
        if i > 0 { AtShift(elems, c.p - 1, data, i - 1); }
      }
    }

    // The new node is in the list.
    ghost method Settle(data: T, c: Change<T>)
      requires Changing(c) && Phases(m, c, Up(c.v, c.v + 1)) && c.p == UpperOf(cmp, elems, data) + 1
      requires c.x in m && c.x.level == c.v && c.x.data == Some(data)
      modifies this`elems, this`nodes, this`lv
      ensures Valid() && elems == Ins(old(elems), c.p - 1, data) && lv == Ins(old(lv), c.p, c.v)
    {
      assert SyncAt(c.x);
      PutIn(m, c);
      InsSorted(cmp, elems, data);
      ghost var elems', nodes', lv' := Ins(elems, c.p - 1, data), Ins(nodes, c.p, c.x), Ins(lv, c.p, c.v);
      forall j | 0 <= j < |nodes'|
        ensures NodeAt(nodes', lv', elems', j) && nodes'[j] in m.Keys
      {
        NodeAtIns(elems, c, data, j);
        assert j != c.p ==> NodeAt(nodes, lv, elems, if j < c.p then j else j - 1);
      }
      elems, nodes, lv := elems', nodes', lv';
    }

    method LinkLevel(from: Node<T>, node: Node<T>, l: int, data: T, ghost at: int, ghost c: Change<T>)
      returns (prev: Node<T>, span: int)
      requires Changing(c) && Phases(m, c, Down(c.v, l)) && UpperPlace(cmp, elems, data, c.p - 1)
      requires c.x == node && c.v == node.level && 0 <= l < LEVELS
      requires 0 <= at < c.p && from == nodes[at] && lv[at] >= l
      modifies this`m, m.Keys
      ensures Changing(c) && Phases(m, c, Down(c.v, l - 1)) && m.Keys == old(m.Keys)
      ensures prev == nodes[Before(c, l)] && span == Before(c, l) - at && lv[Before(c, l)] >= l
    {
      assert PhaseAt(m, c, Down(c.v, l), l);
      PhaseOut(m, c, l);
      prev, span := Walk(from, l, data, at, c.p);
      Neighbours(c, l);
      Descend(prev, node, l, c);
    }

    // From the top level down. What is returned is how far the walk went on each.
    method LinkIn(node: Node<T>, data: T, ghost c: Change<T>) returns (span: array<int>)
      requires Changing(c) && Phases(m, c, Down(c.v, LEVELS - 1)) && UpperPlace(cmp, elems, data, c.p - 1)
      requires c.x == node && c.v == node.level
      modifies this`m, m.Keys
      ensures Changing(c) && Phases(m, c, Down(c.v, -1)) && m.Keys == old(m.Keys)
      ensures fresh(span) && span.Length == LEVELS
      ensures forall k :: 0 <= k < LEVELS ==> span[k] == Stretch(c, k)
    {
      span := new int[LEVELS](_ => 0);
      var prev, l := head, LEVELS - 1;
      ghost var at := 0;
      assert NodeAt(nodes, lv, elems, 0);
      while l >= 0
        invariant -1 <= l < LEVELS && Changing(c) && Phases(m, c, Down(c.v, l)) && m.Keys == old(m.Keys)
        invariant at == (if l == LEVELS - 1 then 0 else Before(c, l + 1)) && prev == nodes[at] && lv[at] >= l
        invariant forall k :: 0 <= k < LEVELS ==> span[k] == if k <= l then 0 else Stretch(c, k)
      {
        var s: int;
        prev, s := LinkLevel(prev, node, l, data, at, c);
        span[l] := span[l] + s;
        at := Before(c, l);
        l := l - 1;
      }
    }

    // From the bottom level up.
    method SpanUp(node: Node<T>, span: array<int>, ghost c: Change<T>)
      requires Changing(c) && Phases(m, c, Up(c.v, 0)) && c.x == node && c.v == node.level && span.Length == LEVELS
      requires forall k :: 0 <= k < c.v ==> span[k] == Stretch(c, k)
      modifies this`m, m.Keys
      ensures Changing(c) && Phases(m, c, Up(c.v, c.v + 1)) && m.Keys == old(m.Keys)
    {
      forall i | 0 <= i < |c.lv|
        ensures c.lv[i] >= 0
      {
        assert NodeAt(nodes, lv, elems, i);
      }
      FirstSpan(node, c);
      forall i | 0 <= i < |nodes|
        ensures NodeAt(nodes, lv, elems, i) && nodes[i] in m.Keys
      {
        assert NodeAt(nodes, lv, elems, i);
      }
      assert SpanIs(node, 0, c.p - Before(c, 0));
      for i := 1 to node.level + 1
        invariant Changing(c) && Phases(m, c, Up(c.v, i)) && m.Keys == old(m.Keys)
        invariant SpanIs(node, i - 1, c.p - Before(c, i - 1))
      {
        assert SyncAt(node);
        SetSpans(node, i, node.link[i - 1].span + span[i - 1], c);
      }
    }

    // `level` is what the random draw returned.
    method Insert(data: T, level: int)
      requires Valid() && 0 <= level < LEVELS
      modifies this`elems, this`nodes, this`lv, this`m, m.Keys
      ensures Valid() && fresh(m.Keys - old(m.Keys))
      ensures elems == Ins(old(elems), UpperOf(cmp, old(elems), data), data)
      ensures lv == Ins(old(lv), UpperOf(cmp, old(elems), data) + 1, level)
    {
      UpperOfIsPlace(cmp, elems, data);
      ghost var c;
      var node;
      node, c := NewNode(data, level, UpperOf(cmp, elems, data) + 1);
      var span := LinkIn(node, data, c);
      PhaseSteps(c.v, 0);
      SpanUp(node, span, c);
      Settle(data, c);
    }

    // The place in front of the first element not below the data.
    ghost function Lower(data: T): int
      reads this
    {
      PlaceOf(cmp, elems, data) + 1
    }

    // The last place on level l before those not below the data, and the next.
    ghost function Near(data: T, l: int): int
      reads this
      requires Lower(data) <= |lv|
    {
      Prev(lv, l, Lower(data))
    }

    ghost function Far(data: T, l: int): int
      reads this
      requires Lower(data) <= |lv|
    {
      Next(lv, l, Near(data, l))
    }

    // Level l from place `at` on: `next` is the first node not below the data.
    method Scan(from: Node<T>, l: int, data: T, start: int, ghost at: int)
      returns (next: Node?<T>, prev: Node<T>, ret: int, span: int)
      requires IsComparator(cmp) && Sorted(cmp, elems) && Sync() && Carries() && 0 <= l < LEVELS
               && LevelOk(m, nodes, lv, l)
      requires 0 <= at < Lower(data) && lv[at] >= l && from == nodes[at] && start == at
      ensures prev == nodes[Near(data, l)] && lv[Near(data, l)] >= l && Lower(data) <= Far(data, l) <= |lv|
      ensures Far(data, l) == |lv| ==> next == null && span == Near(data, l)
      ensures Far(data, l) < |lv| ==>
                && next == nodes[Far(data, l)] && next.data == Some(elems[Far(data, l) - 1])
                && ret == cmp(elems[Far(data, l) - 1], data) >= 0
                && span == if ret == 0 then Far(data, l) else Near(data, l)
    {
      prev, span, ret := from, start, 0;
      ghost var a := at;
      Hop(l, a);
      next := prev.link[l].next;
      while next != null
        invariant 0 <= a < Lower(data) && prev == nodes[a] && lv[a] >= l && span == a
        invariant |prev.link| == LEVELS && next == prev.link[l].next && (next != null ==> next.data.Some?)
        decreases |lv| - a
      {
        Hop(l, a);
        LowerPlace(cmp, elems, data, Next(lv, l, a) - 1);
        ret := cmp(next.data.value, data);
        if ret == 0 {
          span := span + next.link[l].span;
          break;
        } else if ret < 0 {
          span := span + next.link[l].span;
          prev := next;
          next := next.link[l].next;
          a := Next(lv, l, a);
          Hop(l, a);
        } else {
          break;
        }
      }
      Hop(l, a);
      NextIs(lv, l, a);
      PrevUnique(lv, l, Lower(data), a);
    }

    // Level l, on which the node is, loses it.
    method EraseNode(node: Node<T>, l: int, ghost c: Change<T>)
      requires Sync() && c.x == node && c.v >= l && PhaseOk(m, c, l, In)
      modifies this`m, m.Keys
      ensures Sync() && Elsewhere(old(m), m, l) && PhaseOk(m, c, l, Out)
    {
      ghost var m0, a, b := m, Before(c, l), After(c, l);
      Neighbours(c, l);
      assert SyncAt(node) && RelinkedAt(m, c, l, In, a);
      if b < |c.lv| { assert RelinkedAt(m, c, l, In, b); }
      var prev, next := node.link[l].prev, node.link[l].next;
      if prev != null {
        assert SyncAt(prev);
        SetLink(prev, l, prev.link[l].(next := next));
      }
      if next != null {
        assert SyncAt(next) && SyncAt(node);
        SetLink(next, l, next.link[l].(prev := prev, span := next.link[l].span + node.link[l].span - 1));
      }
      forall i | 0 <= i < |c.lv| && c.lv[i] >= l
        ensures RelinkedAt(m, c, l, Out, i)
      {
        assert RelinkedAt(m0, c, l, In, i);
        assert c.nodes[i] == c.nodes[a] ==> i == a;
        assert b < |c.lv| && c.nodes[i] == c.nodes[b] ==> i == b;
      }
    }

    method EraseLevel(node: Node<T>, l: int, ghost c: Change<T>)
      requires Sync() && c.x == node && 0 <= l <= c.v < LEVELS && Phases(m, c, Fall(c.v, l))
      modifies this`m, m.Keys
      ensures Sync() && m.Keys == old(m.Keys) && Phases(m, c, Fall(c.v, l - 1))
    {
      ghost var m0 := m;
      assert PhaseAt(m, c, Fall(c.v, l), l);
      EraseNode(node, l, c);
      PhaseSteps(c.v, l);
      PhaseStep(m0, m, c, Fall(c.v, l), l, Out);
    }

    // A level the node is not on gets a smaller span.
    method ShrinkLevel(change: Node?<T>, l: int, ghost c: Change<T>)
      requires Sync() && 0 <= l < LEVELS && 0 <= c.v < LEVELS && ChangeOk(c) && Phases(m, c, Shrink(c.v, l))
      requires change == if l <= c.v then null else NodeAfter(c.nodes, c.lv, c.p, l)
      modifies this`m, m.Keys
      ensures Sync() && m.Keys == old(m.Keys) && Phases(m, c, Shrink(c.v, l + 1))
    {
      ghost var m0, b := m, After(c, l);
      assert PhaseAt(m, c, Shrink(c.v, l), l);
      Neighbours(c, l);
      if change != null {
        assert RelinkedAt(m, c, l, In, b) && SyncAt(change);
        SetLink(change, l, change.link[l].(span := change.link[l].span - 1));
      }
      if l > c.v {
        forall i | 0 <= i < |c.lv| && c.lv[i] >= l
          ensures RelinkedAt(m, c, l, Out, i)
        {
          assert RelinkedAt(m0, c, l, In, i);
          assert b < |c.lv| && c.nodes[i] == c.nodes[b] ==> i == b;
        }
      }
      PhaseSteps(c.v, l);
      PhaseStep(m0, m, c, Shrink(c.v, l), l, Out);
    }

    // From the node's top level down, then the levels above from the bottom up.
    method Unlink(node: Node<T>, top: int, change: array<Node?<T>>, ghost c: Change<T>)
      requires Sync() && c.x == node && c.v == top && ChangeOk(c) && change.Length == LEVELS
      requires Phases(m, c, Fall(top, LEVELS - 1))
      requires forall k :: 0 <= k < LEVELS ==> change[k] == if k <= top then null else NodeAfter(c.nodes, c.lv, c.p, k)
      modifies this`m, m.Keys
      ensures Sync() && m.Keys == old(m.Keys) && Phases(m, c, Down(top, LEVELS - 1))
    {
      var l := top;
      assert Fall(top, LEVELS - 1) == Fall(top, top);
      while l >= 0
        invariant -1 <= l <= top && Sync() && m.Keys == old(m.Keys) && Phases(m, c, Fall(top, l))
      {
        EraseLevel(node, l, c);
        l := l - 1;
      }
      PhaseSteps(top, 0);
      for i := 0 to LEVELS
        invariant Sync() && m.Keys == old(m.Keys) && Phases(m, c, Shrink(top, i))
      {
        ShrinkLevel(change[i], i, c);
      }
      assert Shrink(top, LEVELS) == Down(top, LEVELS - 1);
    }

    lemma NodeAtMinus(r: int, i: int)
      requires Carries() && 0 < r < |nodes| && 0 <= i < |nodes| - 1
      ensures NodeAt(Minus(nodes, r), Minus(lv, r), Minus(elems, r - 1), i) && Minus(nodes, r)[i] == nodes[Shift(r, i)]
      ensures Minus(nodes, r)[i] in m.Keys
    {
      assert NodeAt(nodes, lv, elems, Shift(r, i));
    }

    // The node is gone.
    ghost method Release(r: int, c: Change<T>)
      requires IsComparator(cmp) && Sorted(cmp, elems) && Sync() && Carries() && ChangeOk(c)
      requires 0 < r < |nodes| && c == Without(nodes, lv, r) && Phases(m, c, Down(c.v, LEVELS - 1))
      modifies this`elems, this`nodes, this`lv, this`m
      ensures Valid() && elems == Minus(old(elems), r - 1) && lv == Minus(old(lv), r) && m == old(m) - {c.x}
    {
      assert NodeAt(nodes, lv, elems, r) && SyncAt(c.x);
      TakenOut(m, c);
      LinkedWithout(m, m - {c.x}, c.nodes, c.lv, c.x);
      MinusSorted(cmp, elems, r - 1);
      forall i | 0 <= i < |c.nodes|
        ensures NodeAt(c.nodes, c.lv, Minus(elems, r - 1), i) && c.nodes[i] in m.Keys && c.nodes[i] != c.x
      {
        NodeAtMinus(r, i);
      }
      m := m - {c.x};
      forall n | n in m
        ensures SyncAt(n)
      {
        assert old(SyncAt(n));
      }
      elems, nodes, lv := Minus(elems, r - 1), c.nodes, c.lv;
    }

    // What is known when the levels above l have been searched.
    ghost predicate Searched(data: T, l: int)
      requires Carries()
      reads this
    {
      forall i :: 0 < i < |lv| && cmp(elems[i - 1], data) == 0 ==> lv[i] <= l
    }

    ghost predicate Changes(change: seq<Node?<T>>, data: T, l: int)
      requires Carries()
      reads this
    {
      |change| == LEVELS && Lower(data) <= |lv| &&
      forall k :: 0 <= k < LEVELS ==> change[k] == if k <= l then null else NodeAfter(nodes, lv, Lower(data), k)
    }

    // Before and after the search.
    lemma SearchEnds(data: T)
      requires Carries()
      ensures Searched(data, LEVELS - 1)
      ensures Searched(data, -1) ==> forall i :: 0 <= i < |elems| ==> cmp(elems[i], data) != 0
    {
      forall i | 0 <= i < |lv|
        ensures 0 <= lv[i] < LEVELS
      {
        assert NodeAt(nodes, lv, elems, i);
      }
      if Searched(data, -1) {
        forall i | 0 <= i < |elems|
          ensures cmp(elems[i], data) != 0
        {
          assert lv[i + 1] >= 0;
        }
      }
    }

    lemma LevelSearched(data: T, l: int)
      requires Valid() && Searched(data, l) && 0 <= l < LEVELS
      ensures var b := Far(data, l);
              && (b == |lv| || cmp(elems[b - 1], data) > 0 ==> Searched(data, l - 1))
              && (b < |lv| && Lower(data) <= b && cmp(elems[b - 1], data) == 0 ==>
                 Chosen(cmp, elems, lv, data, b) && lv[b] == l)
    {
      var a := Prev(lv, l, Lower(data));
      var b := Next(lv, l, a);
      PrevIs(lv, l, Lower(data));
      NextIs(lv, l, a);
      forall i | 0 <= i < |elems| && cmp(elems[i], data) == 0
        ensures Lower(data) <= i + 1
        ensures b < |lv| && cmp(elems[b - 1], data) > 0 ==> i + 1 < b
      {
        LowerPlace(cmp, elems, data, i);
        if b < |lv| && i >= b { Transitive(cmp, elems[b - 1], elems[i], data); }
      }
    }

    lemma LevelDone(change: seq<Node?<T>>, data: T, l: int, next: Node?<T>, ret: int)
      requires Valid() && 0 <= l < LEVELS && Searched(data, l) && Changes(change, data, l)
      requires Lower(data) <= Far(data, l) <= |lv|
      requires if Far(data, l) == |lv| then next == null
               else next == nodes[Far(data, l)] && ret == cmp(elems[Far(data, l) - 1], data) >= 0
      ensures next != null && ret == 0 ==> Chosen(cmp, elems, lv, data, Far(data, l)) && lv[Far(data, l)] == l
      ensures next != null && ret > 0 ==> Searched(data, l - 1) && Changes(change[l := next], data, l - 1)
      ensures next == null ==> Searched(data, l - 1) && Changes(change, data, l - 1)
    {
      LevelSearched(data, l);
      assert next == NodeAfter(nodes, lv, Lower(data), l);
    }

    // From the first element not below the data to an equal one, all are equal.
    lemma EqualsBefore(data: T, r: int)
      requires IsComparator(cmp) && Sorted(cmp, elems) && 0 < r <= |elems| && cmp(elems[r - 1], data) == 0
      ensures Lower(data) <= r && forall i :: Lower(data) - 1 <= i < r ==> cmp(elems[i], data) == 0
    {
      LowerPlace(cmp, elems, data, r - 1);
      forall i | Lower(data) - 1 <= i < r
        ensures cmp(elems[i], data) == 0
      {
        LowerPlace(cmp, elems, data, i);
        if i < r - 1 { Transitive(cmp, elems[i], elems[r - 1], data); }
      }
    }

    lemma ChangesWithout(change: seq<Node?<T>>, data: T, l: int, r: int)
      requires Valid() && 0 <= l < LEVELS && Chosen(cmp, elems, lv, data, r) && lv[r] == l && Changes(change, data, l)
      requires ChangeOk(Without(nodes, lv, r))
      ensures var c := Without(nodes, lv, r);
              forall k :: 0 <= k < LEVELS ==> change[k] == if k <= l then null else NodeAfter(c.nodes, c.lv, c.p, k)
    {
      var c := Without(nodes, lv, r);
      EqualsBefore(data, r);
      forall k | l < k < LEVELS
        ensures change[k] == NodeAfter(c.nodes, c.lv, c.p, k)
      {
        assert forall i :: Lower(data) <= i <= r ==> lv[i] < k by {
          forall i | Lower(data) <= i <= r
            ensures lv[i] < k
          {
            assert cmp(elems[i - 1], data) == 0;
          }
        }
        NodeAfterWithout(nodes, lv, Lower(data), r, k);
      }
    }

    // The node found is taken out.
    method TakeOut(node: Node<T>, l: int, data: T, change: array<Node?<T>>, ghost r: int)
      requires Valid() && 0 <= l < LEVELS && Chosen(cmp, elems, lv, data, r) && node == nodes[r] && lv[r] == l
      requires change.Length == LEVELS && Changes(change[..], data, l)
      modifies this`elems, this`nodes, this`lv, this`m, m.Keys
      ensures Valid() && m.Keys <= old(m.Keys) && elems == Minus(old(elems), r - 1) && lv == Minus(old(lv), r)
    {
      ghost var c := Without(nodes, lv, r);
      WithoutOk(m, nodes, lv, r);
      assert NodeAt(nodes, lv, elems, r) && SyncAt(node);
      PutIn(m, c);
      assert Fall(l, LEVELS - 1) == Up(l, l + 1);
      assert forall k :: 0 <= k < LEVELS ==> change[..][k] == change[k];
      ChangesWithout(change[..], data, l, r);
      Unlink(node, l, change, c);
      forall i | 0 <= i < |nodes|
        ensures NodeAt(nodes, lv, elems, i) && nodes[i] in m.Keys
      {
        assert NodeAt(nodes, lv, elems, i);
      }
      Release(r, c);
    }

    // The search of one level; without a hit, the node it ended at will have to
    // change if a node below is erased.
    method LocateLevel(from: Node<T>, l: int, data: T, start: int, change: array<Node?<T>>, ghost at: int)
      returns (next: Node?<T>, prev: Node<T>, ret: int, span: int)
      requires Valid() && 0 <= l < LEVELS && 0 <= at < Lower(data) && lv[at] >= l && from == nodes[at] && start == at
      requires Searched(data, l) && change.Length == LEVELS && Changes(change[..], data, l)
      modifies change
      ensures Lower(data) <= |lv| && prev == nodes[Near(data, l)] && lv[Near(data, l)] >= l
      ensures if next != null && ret == 0
              then Chosen(cmp, elems, lv, data, span) && next == nodes[span] && lv[span] == l
                  && Changes(change[..], data, l)
              else span == Near(data, l) && Searched(data, l - 1) && Changes(change[..], data, l - 1)
    {
      assert LevelOk(m, nodes, lv, l);
      next, prev, ret, span := Scan(from, l, data, start, at);
      LevelDone(change[..], data, l, next, ret);
      if next != null && ret > 0 {
        ghost var was := change[..];
        change[l] := next;
        assert change[..] == was[l := next];
      }
    }

    // The search of all levels: the node found, its level and its rank.
    method Locate(data: T) returns (next: Node?<T>, level: int, rank: int, change: array<Node?<T>>)
      requires Valid()
      ensures fresh(change) && change.Length == LEVELS
      ensures next == null ==> rank == 0 && forall i :: 0 <= i < |elems| ==> cmp(elems[i], data) != 0
      ensures next != null ==> Chosen(cmp, elems, lv, data, rank) && next == nodes[rank] && lv[rank] == level
      ensures next != null ==> 0 <= level < LEVELS && Changes(change[..], data, level)
    {
      change := new Node?<T>[LEVELS](_ => null);
      level, rank := LEVELS - 1, 0;
      var prev, span := head, 0;
      ghost var at := 0;
      assert NodeAt(nodes, lv, elems, 0);
      SearchEnds(data);
      while level >= 0
        invariant -1 <= level < LEVELS && Searched(data, level) && Changes(change[..], data, level)
        invariant 0 <= at < Lower(data) && lv[at] >= level && prev == nodes[at] && span == at
      {
        var ret: int;
        next, prev, ret, span := LocateLevel(prev, level, data, span, change, at);
        if next != null && ret == 0 {
          rank := span;
          return;
        }
        at := Near(data, level);
        level := level - 1;
      }
      next := null;
    }

    // The element found and its rank; or none if no element is equal to the data, and
    // the rank is what it was.
    method Find(data: T, was: int) returns (found: Option<T>, rank: int)
      requires Valid()
      ensures found.None? ==> rank == was && forall i :: 0 <= i < |elems| ==> cmp(elems[i], data) != 0
      ensures found.Some? ==> Chosen(cmp, elems, lv, data, rank) && found.value == elems[rank - 1]
    {
      var next, level, change;
      next, level, rank, change := Locate(data);
      if next == null {
        return None, was;
      }
      assert NodeAt(nodes, lv, elems, rank);
      found := next.data;
    }

    // The same, and the element found is taken out.
    method Erase(data: T) returns (found: Option<T>, rank: int)
      requires Valid()
      modifies this`elems, this`nodes, this`lv, this`m, m.Keys
      ensures Valid() && m.Keys <= old(m.Keys)
      ensures found.None? ==> rank == 0 && forall i :: 0 <= i < |elems| ==> cmp(elems[i], data) != 0
      ensures found.Some? ==> Chosen(cmp, old(elems), old(lv), data, rank) && found.value == old(elems)[rank - 1]
      ensures elems == if found.Some? then Minus(old(elems), rank - 1) else old(elems)
      ensures lv == if found.Some? then Minus(old(lv), rank) else old(lv)
    {
      var next, level, change;
      next, level, rank, change := Locate(data);
      if next == null {
        return None, rank;
      }
      assert NodeAt(nodes, lv, elems, rank);
      found := next.data;
      TakeOut(next, level, data, change, rank);
    }

    // No node from place a up to the rank is on a level above l.
    ghost predicate Passed(a: int, rank: int, l: int)
      requires a >= 0
      reads this`lv
    {
      forall i :: a < i < |lv| && i <= rank ==> lv[i] <= l
    }

    lemma Bottom(a: int, rank: int)
      requires Carries() && 0 <= a && a + 1 < |lv| && Passed(a, rank, -1)
      ensures rank <= a
    {
      assert NodeAt(nodes, lv, elems, a + 1);
    }

    // Level l from place `start` on: the node of that rank, or the last before it.
    method SeekRank(from: Node<T>, l: int, rank: int, start: int) returns (hit: Node?<T>, prev: Node<T>, span: int)
      requires Sync() && Carries() && 0 <= l < LEVELS && LevelOk(m, nodes, lv, l)
      requires 0 <= start < |lv| && start < rank && lv[start] >= l && from == nodes[start] && Passed(start, rank, l)
      ensures hit != null ==> rank < |lv| && hit == nodes[rank]
      ensures hit == null ==>
                && 0 <= span < |lv| && span < rank && lv[span] >= l && prev == nodes[span]
                && Passed(span, rank, l - 1)
    {
      prev, span, hit := from, start, null;
      Hop(l, span);
      var next := prev.link[l].next;
      while next != null
        invariant 0 <= span < |lv| && span < rank && lv[span] >= l && prev == nodes[span] && Passed(span, rank, l)
        invariant |prev.link| == LEVELS && next == prev.link[l].next
        decreases |lv| - span
      {
        Hop(l, span);
        span := span + next.link[l].span;
        if span == rank {
          hit := next;
          return;
        } else if span < rank {
          prev := next;
          next := next.link[l].next;
          Hop(l, span);
        } else {
          span := span - next.link[l].span;
          break;
        }
      }
      Hop(l, span);
      NextIs(lv, l, span);
    }

    // The node that many places behind the head, or null.
    method FindNodeByRank(rank: int) returns (node: Node?<T>)
      requires Valid()
      ensures node == if 1 <= rank <= |elems| then nodes[rank] else null
    {
      if rank <= 0 {
        return null;
      }
      var level, prev, span := LEVELS - 1, head, 0;
      forall i | 0 <= i < |lv|
        ensures 0 <= lv[i] < LEVELS
      {
        assert NodeAt(nodes, lv, elems, i);
      }
      assert NodeAt(nodes, lv, elems, 0);
      while level >= 0
        invariant -1 <= level < LEVELS && 0 <= span < |lv| && span < rank && lv[span] >= level && prev == nodes[span]
        invariant Passed(span, rank, level)
      {
        assert LevelOk(m, nodes, lv, level);
        node, prev, span := SeekRank(prev, level, rank, span);
        if node != null {
          return;
        }
        level := level - 1;
      }
      node := null;
      if span + 1 < |lv| { Bottom(span, rank); }
    }

    method FindByRank(rank: int) returns (found: Option<T>)
      requires Valid()
      ensures found == if 1 <= rank <= |elems| then Some(elems[rank - 1]) else None
    {
      var node := FindNodeByRank(rank);
      if node != null { assert NodeAt(nodes, lv, elems, rank); }
      found := if node != null then node.data else None;
    }

    // The next node on the bottom level is the one of the next rank.
    lemma NextRank(r: int)
      requires Valid() && 0 <= r < |nodes|
      ensures |nodes[r].link| == LEVELS
      ensures nodes[r].link[0].next == if r + 1 < |nodes| then nodes[r + 1] else null
      ensures nodes[r].link[0].prev == if r > 0 then nodes[r - 1] else null
    {
      assert LevelOk(m, nodes, lv, 0) && NodeAt(nodes, lv, elems, r) && WantAt(m, nodes, lv, 0, r) && SyncAt(nodes[r]);
      if r + 1 < |nodes| { assert NodeAt(nodes, lv, elems, r + 1); }
      if r > 0 { assert NodeAt(nodes, lv, elems, r - 1); }
    }

    // Up to `scope` elements from the rank on; the scope becomes their number
    // unless it was not positive.
    method FindListByRank(rank: int, scope: int, list: array<Option<T>>) returns (ret: int, scope': int)
      requires Valid() && scope <= list.Length
      modifies list
      ensures ret == 0 <==> 1 <= rank <= |elems|
      ensures ret != 0 ==> ret == -1 && scope' == scope && list[..] == old(list[..])
      ensures ret == 0 ==> scope' == if scope <= |elems| + 1 - rank then scope else |elems| + 1 - rank
      ensures ret == 0 ==> forall i :: 0 <= i < list.Length ==>
                list[i] == if i < scope' then Some(elems[rank - 1 + i]) else old(list[i])
    {
      scope' := scope;
      if rank <= 0 {
        return -1, scope;
      }
      var node := FindNodeByRank(rank);
      if node == null {
        return -1, scope;
      }
      var end, i := scope, 0;
      while node != null && i < end
        invariant 0 <= i && rank + i <= |nodes| && (i <= end || i == 0)
        invariant node == if rank + i < |nodes| then nodes[rank + i] else null
        invariant scope' == if i == 0 then scope else i
        invariant forall k :: 0 <= k < list.Length ==>
                  list[k] == if k < i then Some(elems[rank - 1 + k]) else old(list[k])
        decreases end - i
      {
        assert NodeAt(nodes, lv, elems, rank + i);
        NextRank(rank + i);
        list[i] := node.data;
        node := node.link[0].next;
        scope' := i + 1;
        i := i + 1;
      }
      ret := 0;
    }

    // The number of elements.
    method Size() returns (span: int)
      requires Valid()
      ensures span == |elems|
    {
      span := 0;
      var level, prev := LEVELS - 1, head;
      forall i | 0 <= i < |lv|
        ensures 0 <= lv[i] < LEVELS
      {
        assert NodeAt(nodes, lv, elems, i);
      }
      assert NodeAt(nodes, lv, elems, 0);
      while level >= 0
        invariant -1 <= level < LEVELS && 0 <= span < |lv| && lv[span] >= level && prev == nodes[span]
        invariant Passed(span, |lv|, level)
        decreases level + 1, |lv| - span
      {
        assert LevelOk(m, nodes, lv, level);
        Hop(level, span);
        NextIs(lv, level, span);
        var next := prev.link[level].next;
        if next == null {
          level := level - 1;
        } else {
          span := span + next.link[level].span;
          prev := next;
        }
      }
      if span + 1 < |lv| { Bottom(span, |lv|); }
    }

    lemma NotHead(r: int)
      requires Valid() && 0 < r < |nodes|
      ensures nodes[r] != head
    {
      assert NodeAt(nodes, lv, elems, 0) && nodes[0] != nodes[r];
    }

    // The first element from the rank on that the filter takes.
    method FindFromRankForward(rank: int, filter: T -> bool) returns (found: Option<T>)
      requires Valid()
      ensures found.None? ==> forall i :: 1 <= rank <= i + 1 <= |elems| ==> !filter(elems[i])
      ensures found.Some? ==> exists r :: 1 <= rank <= r + 1 <= |elems| && found.value == elems[r] && filter(elems[r])
                                        && forall i :: rank <= i + 1 <= r ==> !filter(elems[i])
    {
      var node := FindNodeByRank(rank);
      ghost var r := rank;
      if node != null { NotHead(r); }
      while node != null && node != head
        invariant node != null ==> node != head && 1 <= rank <= r < |nodes| && node == nodes[r]
        invariant node == null ==> r > |elems| || rank < 1
        invariant forall i :: 1 <= rank <= i + 1 < r && i < |elems| ==> !filter(elems[i])
        decreases |nodes| - r
      {
        assert NodeAt(nodes, lv, elems, r);
        NextRank(r);
        if filter(node.data.value) {
          return node.data;
        }
        node := node.link[0].next;
        r := r + 1;
        if node != null { NotHead(r); }
      }
      return None;
    }
  }
}
