// What the links of a skip list must be, given the levels of its nodes.
module SkipListModel {
  import opened Options
  import opened Ordering

  const LEVELS := 4

  datatype Link<T> = Link(next: Node?<T>, prev: Node?<T>, span: int)

  class Node<T> {
    var link: seq<Link<T>>
    const level: int
    const data: Option<T>

    constructor (data: Option<T>, level: int)
      ensures this.data == data && this.level == level
      ensures link == [Link(null, null, 0), Link(null, null, 0), Link(null, null, 0), Link(null, null, 0)]
    {
      this.data, this.level := data, level;
      link := [Link(null, null, 0), Link(null, null, 0), Link(null, null, 0), Link(null, null, 0)];
    }
  }

  // -------------------------------------------- neighbours among the high nodes

  // `lv` holds the level of each node, the head's first. The next node after i
  // that is on level l; |lv| if there is none.
  ghost predicate IsNext(lv: seq<int>, l: int, i: int, j: int) {
    0 <= i < j <= |lv| && (j < |lv| ==> lv[j] >= l) && forall k :: i < k < j ==> lv[k] < l
  }

  ghost function Next(lv: seq<int>, l: int, i: int): (j: int)
    requires 0 <= i < |lv|
    ensures i < j <= |lv|
    decreases |lv| - i
  {
    if i + 1 == |lv| || lv[i + 1] >= l then i + 1 else Next(lv, l, i + 1)
  }

  lemma {:induction false} NextIs(lv: seq<int>, l: int, i: int)
    requires 0 <= i < |lv|
    ensures IsNext(lv, l, i, Next(lv, l, i))
    decreases |lv| - i
  {
    if i + 1 < |lv| && lv[i + 1] < l { NextIs(lv, l, i + 1); }
  }

  lemma NextUnique(lv: seq<int>, l: int, i: int, j: int)
    requires 0 <= i < |lv| && IsNext(lv, l, i, j)
    ensures Next(lv, l, i) == j
  {
    NextIs(lv, l, i);
  }

  ghost predicate IsPrev(lv: seq<int>, l: int, i: int, j: int) {
    0 <= j < i <= |lv| && lv[j] >= l && forall k :: j < k < i ==> lv[k] < l
  }

  ghost function Prev(lv: seq<int>, l: int, i: int): (j: int)
    requires 0 < i <= |lv|
    ensures 0 <= j < i
  {
    if lv[i - 1] >= l || i == 1 then i - 1 else Prev(lv, l, i - 1)
  }

  lemma {:induction false} PrevIs(lv: seq<int>, l: int, i: int)
    requires 0 < i <= |lv| && lv[0] >= l
    ensures IsPrev(lv, l, i, Prev(lv, l, i))
  {
    if lv[i - 1] < l { PrevIs(lv, l, i - 1); }
  }

  lemma PrevUnique(lv: seq<int>, l: int, i: int, j: int)
    requires 0 < i <= |lv| && lv[0] >= l && IsPrev(lv, l, i, j)
    ensures Prev(lv, l, i) == j
  {
    PrevIs(lv, l, i);
  }

  // The links of node i on level l.
  ghost function Want<T>(nodes: seq<Node<T>>, lv: seq<int>, l: int, i: int): Link<T>
    requires |nodes| == |lv| && 0 <= i < |lv| && lv[0] >= l
  {
    var n := Next(lv, l, i);
    var next := if n < |lv| then nodes[n] else null;
    if i == 0 then Link(next, null, 0) else Link(next, nodes[Prev(lv, l, i)], i - Prev(lv, l, i))
  }

  function Ins<X>(s: seq<X>, p: int, x: X): (r: seq<X>)
    requires 0 <= p <= |s|
    ensures |r| == |s| + 1 && r[p] == x
  {
    seq(|s| + 1, i requires 0 <= i <= |s| => if i < p then s[i] else if i == p then x else s[i - 1])
  }

  function Shift(p: int, i: int): int { if i < p then i else i + 1 }

  lemma NextIns(lv: seq<int>, p: int, v: int, l: int, i: int)
    requires 0 < p <= |lv| && 0 <= i < |lv| && lv[i] >= l && lv[0] >= l
    ensures var a, n := Prev(lv, l, p), Next(lv, l, i);
            Next(Ins(lv, p, v), l, Shift(p, i)) == if v >= l && i == a then p else Shift(p, n)
  {
    var lv', i', a := Ins(lv, p, v), Shift(p, i), Prev(lv, l, p);
    var n' := if v >= l && i == a then p else Shift(p, Next(lv, l, i));
    NextIs(lv, l, i);
    PrevIs(lv, l, p);
    forall k | i' < k < n'
      ensures lv'[k] < l
    {
      assert k == p || lv'[k] == lv[if k < p then k else k - 1];
    }
    NextUnique(lv', l, i', n');
  }

  lemma PrevIns(lv: seq<int>, p: int, v: int, l: int, i: int)
    requires 0 < p <= |lv| && 0 < i < |lv| && lv[i] >= l && lv[0] >= l
    ensures var b, n := Next(lv, l, Prev(lv, l, p)), Prev(lv, l, i);
            Prev(Ins(lv, p, v), l, Shift(p, i)) == if v >= l && i == b then p else Shift(p, n)
  {
    var lv', i', b := Ins(lv, p, v), Shift(p, i), Next(lv, l, Prev(lv, l, p));
    var n' := if v >= l && i == b then p else Shift(p, Prev(lv, l, i));
    NextIs(lv, l, Prev(lv, l, p));
    PrevIs(lv, l, p);
    PrevIs(lv, l, i);
    assert lv'[Shift(p, 0)] == lv[0];
    forall k | n' < k < i'
      ensures lv'[k] < l
    {
      assert k == p || lv'[k] == lv[if k < p then k else k - 1];
    }
    PrevUnique(lv', l, i', n');
  }

  lemma AroundIns(lv: seq<int>, p: int, v: int, l: int)
    requires 0 < p <= |lv| && lv[0] >= l
    ensures var a := Prev(lv, l, p);
            && Prev(Ins(lv, p, v), l, p) == a && Next(Ins(lv, p, v), l, p) == Next(lv, l, a) + 1
            && Next(lv, l, a) >= p
  {
    var lv', a := Ins(lv, p, v), Prev(lv, l, p);
    var b := Next(lv, l, a);
    NextIs(lv, l, a);
    PrevIs(lv, l, p);
    forall k | 0 <= k < |lv|
      ensures lv'[Shift(p, k)] == lv[k]
    {
    }
    assert lv'[Shift(p, 0)] == lv[0] && lv'[Shift(p, a)] == lv[a];
    forall k | p < k <= b
      ensures lv'[k] < l
    {
      assert lv'[Shift(p, k - 1)] == lv[k - 1];
    }
    assert IsNext(lv', l, p, b + 1);
    NextUnique(lv', l, p, b + 1);
    forall k | a < k < p
      ensures lv'[k] < l
    {
      assert lv'[Shift(p, k)] == lv[k];
    }
    PrevUnique(lv', l, p, a);
  }

  // A node x of level v that is absent from or present at place p of a list.
  datatype Change<T> = Change(nodes: seq<Node<T>>, lv: seq<int>, p: int, x: Node<T>, v: int)

  // On each level it is absent, spliced in but with the spans of old, or present.
  datatype Phase = Out | Spliced | In

  ghost predicate ChangeOk<T>(c: Change<T>) {
    && |c.nodes| == |c.lv| && 0 < c.p <= |c.lv| && c.lv[0] == LEVELS - 1 && 0 <= c.v < LEVELS
    && c.x !in c.nodes && Distinct(c.nodes)
  }

  ghost function Before<T>(c: Change<T>, l: int): int
    requires ChangeOk(c)
  {
    Prev(c.lv, l, c.p)
  }

  ghost function After<T>(c: Change<T>, l: int): int
    requires ChangeOk(c)
  {
    Next(c.lv, l, Before(c, l))
  }

  // How far the walk to place p goes on level l, after the level above.
  ghost function Stretch<T>(c: Change<T>, l: int): int
    requires ChangeOk(c)
  {
    Before(c, l) - if l == LEVELS - 1 then 0 else Before(c, l + 1)
  }

  // The links of node i on level l.
  ghost function Relinked<T>(c: Change<T>, l: int, f: Phase, i: int): Link<T>
    requires ChangeOk(c) && 0 <= i < |c.lv| && l < LEVELS
  {
    var w, a, b := Want(c.nodes, c.lv, l, i), Before(c, l), After(c, l);
    match f
    case Out => w
    case Spliced => if i == a then w.(next := c.x) else if i == b then w.(prev := c.x) else w
    case In =>
      if c.v >= l then
        if i == a then w.(next := c.x) else if i == b then w.(prev := c.x, span := b + 1 - c.p) else w
      else
        if i == b then w.(span := w.span + 1) else w
  }

  ghost function OwnLink<T>(c: Change<T>, l: int): Link<T>
    requires ChangeOk(c) && l < LEVELS
  {
    var a := Before(c, l);
    Link(Want(c.nodes, c.lv, l, a).next, c.nodes[a], c.p - a)
  }

  // Where the node before i is, seen from place p.
  lemma PrevSide(lv: seq<int>, p: int, l: int, i: int)
    requires 0 < p <= |lv| && 0 < i < |lv| && lv[i] >= l && lv[0] >= l
    ensures var a := Prev(lv, l, p); var b := Next(lv, l, a);
            a < p <= b && if i < p then i <= a else if i == b then Prev(lv, l, i) == a else b <= Prev(lv, l, i)
  {
    var a := Prev(lv, l, p);
    var b := Next(lv, l, a);
    PrevIs(lv, l, p);
    NextIs(lv, l, a);
    if i == b { PrevUnique(lv, l, i, a); } else { PrevIs(lv, l, i); }
  }

  lemma WantInsNext<T>(nodes: seq<Node<T>>, lv: seq<int>, p: int, x: Node<T>, v: int, l: int, i: int)
    requires |nodes| == |lv| && 0 < p <= |lv| && 0 <= i < |lv| && lv[i] >= l && lv[0] >= l
    ensures Ins(lv, p, v)[0] == lv[0]
    ensures Want(Ins(nodes, p, x), Ins(lv, p, v), l, Shift(p, i)).next
         == if v >= l && i == Prev(lv, l, p) then x else Want(nodes, lv, l, i).next
  {
    AtShift(lv, p, v, 0);
    NextIns(lv, p, v, l, i);
    AtShift(nodes, p, x, Next(lv, l, i));
  }

  lemma WantInsPrev<T>(nodes: seq<Node<T>>, lv: seq<int>, p: int, x: Node<T>, v: int, l: int, i: int)
    requires |nodes| == |lv| && 0 < p <= |lv| && 0 < i < |lv| && lv[i] >= l && lv[0] >= l
    requires Ins(lv, p, v)[0] == lv[0]
    ensures var b, n := Next(lv, l, Prev(lv, l, p)), Prev(lv, l, i);
            var w := Want(Ins(nodes, p, x), Ins(lv, p, v), l, Shift(p, i));
            if v >= l && i == b then w.prev == x && w.span == b + 1 - p
            else w.prev == nodes[n] && w.span == i - n + (if i == b then 1 else 0)
  {
    PrevSide(lv, p, l, i);
    PrevIns(lv, p, v, l, i);
    AtShift(nodes, p, x, Prev(lv, l, i));
  }

  // What the presence of x means for the links of the others, and for its own.
  lemma WantIns<T>(c: Change<T>, l: int, i: int)
    requires ChangeOk(c) && l < LEVELS && 0 <= i < |c.lv| && c.lv[i] >= l
    ensures Ins(c.lv, c.p, c.v)[0] == c.lv[0]
    ensures Want(Ins(c.nodes, c.p, c.x), Ins(c.lv, c.p, c.v), l, Shift(c.p, i)) == Relinked(c, l, In, i)
  {
    var Change(nodes, lv, p, x, v) := c;
    WantInsNext(nodes, lv, p, x, v, l, i);
    if i > 0 { WantInsPrev(nodes, lv, p, x, v, l, i); }
  }

  lemma AtShift<X>(s: seq<X>, p: int, x: X, i: int)
    requires 0 <= p <= |s| && 0 <= i <= |s|
    ensures i < |s| ==> Ins(s, p, x)[Shift(p, i)] == s[i]
  {
  }

  lemma WantNew<T>(c: Change<T>, l: int)
    requires ChangeOk(c) && l < LEVELS
    ensures Ins(c.lv, c.p, c.v)[0] == c.lv[0]
    ensures Want(Ins(c.nodes, c.p, c.x), Ins(c.lv, c.p, c.v), l, c.p) == OwnLink(c, l)
  {
    var Change(nodes, lv, p, x, v) := c;
    assert Ins(lv, p, v)[Shift(p, 0)] == lv[0];
    AroundIns(lv, p, v, l);
    AtShift(nodes, p, x, Before(c, l));
    AtShift(nodes, p, x, After(c, l));
  }

  // The node before the next one.
  lemma Back(lv: seq<int>, l: int, i: int)
    requires 0 <= i < |lv| && lv[i] >= l && lv[0] >= l && Next(lv, l, i) < |lv|
    ensures Prev(lv, l, Next(lv, l, i)) == i
  {
    NextIs(lv, l, i);
    PrevUnique(lv, l, Next(lv, l, i), i);
  }

  // --------------------------------------------------------- all links of a list

  type Links<T> = map<Node<T>, seq<Link<T>>>

  ghost predicate Distinct<T>(nodes: seq<Node<T>>) {
    forall i, j :: 0 <= i < j < |nodes| ==> nodes[i] != nodes[j]
  }

  ghost predicate HasLink<T>(m: Links<T>, n: Node<T>, l: int, k: Link<T>) {
    n in m && 0 <= l < |m[n]| && m[n][l] == k
  }

  ghost predicate WantAt<T>(m: Links<T>, nodes: seq<Node<T>>, lv: seq<int>, l: int, i: int)
    requires |nodes| == |lv| && 0 <= i < |lv| && lv[0] >= l
  {
    HasLink(m, nodes[i], l, Want(nodes, lv, l, i))
  }

  // The nodes of level l and more are linked in their order.
  ghost predicate LevelOk<T>(m: Links<T>, nodes: seq<Node<T>>, lv: seq<int>, l: int) {
    && |nodes| == |lv| > 0 && lv[0] >= l
    && forall i {:trigger WantAt(m, nodes, lv, l, i)} :: 0 <= i < |lv| && lv[i] >= l ==> WantAt(m, nodes, lv, l, i)
  }

  ghost predicate Linked<T>(m: Links<T>, nodes: seq<Node<T>>, lv: seq<int>) {
    && |nodes| == |lv| > 0 && lv[0] == LEVELS - 1 && Distinct(nodes)
    && forall l {:trigger LevelOk(m, nodes, lv, l)} :: 0 <= l < LEVELS ==> LevelOk(m, nodes, lv, l)
  }

  ghost predicate RelinkedAt<T>(m: Links<T>, c: Change<T>, l: int, f: Phase, i: int)
    requires ChangeOk(c) && 0 <= i < |c.lv| && l < LEVELS
  {
    HasLink(m, c.nodes[i], l, Relinked(c, l, f, i))
  }

  // Level l is in phase f of the change.
  ghost predicate PhaseOk<T>(m: Links<T>, c: Change<T>, l: int, f: Phase) {
    && ChangeOk(c) && 0 <= l < LEVELS
    && c.x in m && |m[c.x]| == LEVELS
    && (c.v >= l && f == In ==> m[c.x][l] == OwnLink(c, l))
    && (c.v >= l && f == Spliced ==> m[c.x][l] == OwnLink(c, l).(span := m[c.x][l].span))
    && forall i {:trigger RelinkedAt(m, c, l, f, i)} :: 0 <= i < |c.lv| && c.lv[i] >= l ==> RelinkedAt(m, c, l, f, i)
  }

  lemma PhaseIn<T>(m: Links<T>, c: Change<T>, l: int)
    requires ChangeOk(c) && 0 <= l < LEVELS && c.x in m && |m[c.x]| == LEVELS
    ensures PhaseOk(m, c, l, In) <==> LevelOk(m, Ins(c.nodes, c.p, c.x), Ins(c.lv, c.p, c.v), l)
  {
    var nodes', lv' := Ins(c.nodes, c.p, c.x), Ins(c.lv, c.p, c.v);
    WantNew(c, l);
    forall i | 0 <= i < |c.lv|
      ensures c.lv[i] >= l ==> (RelinkedAt(m, c, l, In, i) <==> WantAt(m, nodes', lv', l, Shift(c.p, i)))
      ensures lv'[Shift(c.p, i)] == c.lv[i]
    {
      AtShift(c.nodes, c.p, c.x, i);
      if c.lv[i] >= l { WantIns(c, l, i); }
    }
    if PhaseOk(m, c, l, In) {
      forall j | 0 <= j < |lv'| && lv'[j] >= l
        ensures WantAt(m, nodes', lv', l, j)
      {
        var i := if j < c.p then j else j - 1;
        if j != c.p { assert RelinkedAt(m, c, l, In, i); }
      }
    }
    if LevelOk(m, nodes', lv', l) {
      if c.v >= l { assert WantAt(m, nodes', lv', l, c.p); }
      forall i | 0 <= i < |c.lv| && c.lv[i] >= l
        ensures RelinkedAt(m, c, l, In, i)
      {
        assert WantAt(m, nodes', lv', l, Shift(c.p, i));
      }
    }
  }

  lemma PhaseOut<T>(m: Links<T>, c: Change<T>, l: int)
    requires ChangeOk(c) && 0 <= l < LEVELS && c.x in m && |m[c.x]| == LEVELS
    ensures PhaseOk(m, c, l, Out) <==> LevelOk(m, c.nodes, c.lv, l)
  {
    forall i | 0 <= i < |c.lv|
      ensures RelinkedAt(m, c, l, Out, i) <==> WantAt(m, c.nodes, c.lv, l, i)
    {
    }
  }

  // ------------------------------------------------------- one level at a time

  // Only links of level l differ.
  ghost predicate Elsewhere<T>(m: Links<T>, m': Links<T>, l: int) {
    m'.Keys == m.Keys && forall n :: n in m ==> SameOff(m[n], m'[n], l)
  }

  ghost predicate SameOff<T>(k: seq<Link<T>>, k': seq<Link<T>>, l: int) {
    |k'| == |k| && forall i :: 0 <= i < |k| && i != l ==> k'[i] == k[i]
  }

  lemma PhaseKept<T>(m: Links<T>, m': Links<T>, c: Change<T>, l: int, k: int, f: Phase)
    requires Elsewhere(m, m', l) && k != l && PhaseOk(m, c, k, f)
    ensures PhaseOk(m', c, k, f)
  {
    forall i | 0 <= i < |c.lv| && c.lv[i] >= k
      ensures RelinkedAt(m', c, k, f, i)
    {
      assert RelinkedAt(m, c, k, f, i);
    }
  }

  // The two nodes around place p on level l.
  lemma Neighbours<T>(c: Change<T>, l: int)
    requires ChangeOk(c) && l < LEVELS
    ensures var a, b := Before(c, l), After(c, l);
            && 0 <= a < c.p <= b <= |c.lv| && c.lv[a] >= l && c.nodes[a] != c.x
            && Want(c.nodes, c.lv, l, a).next == (if b < |c.lv| then c.nodes[b] else null)
            && (b < |c.lv| ==> c.lv[b] >= l && c.nodes[b] != c.nodes[a] && c.nodes[b] != c.x
                               && Want(c.nodes, c.lv, l, b) == Link(Want(c.nodes, c.lv, l, b).next, c.nodes[a], b - a))
            && forall i :: a < i < b ==> c.lv[i] < l
  {
    var a := Before(c, l);
    PrevIs(c.lv, l, c.p);
    NextIs(c.lv, l, a);
    if After(c, l) < |c.lv| { Back(c.lv, l, a); }
  }

  // ------------------------------------------------------------- all levels

  ghost predicate PhaseAt<T>(m: Links<T>, c: Change<T>, f: seq<Phase>, k: int)
    requires 0 <= k < |f|
  {
    PhaseOk(m, c, k, f[k])
  }

  ghost predicate Phases<T>(m: Links<T>, c: Change<T>, f: seq<Phase>) {
    |f| == LEVELS && forall k {:trigger PhaseAt(m, c, f, k)} :: 0 <= k < LEVELS ==> PhaseAt(m, c, f, k)
  }

  lemma PhaseStep<T>(m: Links<T>, m': Links<T>, c: Change<T>, f: seq<Phase>, l: int, x: Phase)
    requires Phases(m, c, f) && 0 <= l < LEVELS && Elsewhere(m, m', l) && PhaseOk(m', c, l, x)
    ensures Phases(m', c, f[l := x])
  {
    var f' := f[l := x];
    forall k | 0 <= k < LEVELS
      ensures PhaseAt(m', c, f', k)
    {
      assert PhaseAt(m, c, f, k);
      if k != l { PhaseKept(m, m', c, l, k, f[k]); }
    }
  }

  // A node is put in from the top down; the levels above l are done but for its
  // spans.
  ghost function Down(v: int, l: int): seq<Phase> {
    seq(LEVELS, k => if k <= l then Out else if k <= v then Spliced else In)
  }

  // Then the spans are set from the bottom up; those below l are.
  ghost function Up(v: int, l: int): seq<Phase> {
    seq(LEVELS, k => if l <= k <= v then Spliced else In)
  }

  // A node is taken out from its top level down; the levels above l are done.
  ghost function Fall(v: int, l: int): seq<Phase> {
    seq(LEVELS, k => if l < k <= v then Out else In)
  }

  // Then the levels it is not on shrink; those below l have.
  ghost function Shrink(v: int, l: int): seq<Phase> {
    seq(LEVELS, k => if k <= v || k < l then Out else In)
  }

  lemma PhaseSteps(v: int, l: int)
    requires 0 <= v < LEVELS && 0 <= l < LEVELS
    ensures Down(v, l - 1) == Down(v, l)[l := if l <= v then Spliced else In]
    ensures Down(v, -1) == Up(v, 0)
    ensures l <= v ==> Up(v, l + 1) == Up(v, l)[l := In]
    ensures l <= v ==> Fall(v, l - 1) == Fall(v, l)[l := Out]
    ensures Fall(v, -1) == Shrink(v, 0)
    ensures Shrink(v, l + 1) == Shrink(v, l)[l := Out]
  {
  }

  lemma InsDistinct<T>(nodes: seq<Node<T>>, p: int, x: Node<T>)
    requires 0 <= p <= |nodes| && x !in nodes && Distinct(nodes)
    ensures Distinct(Ins(nodes, p, x))
  {
    var nodes' := Ins(nodes, p, x);
    forall i, j | 0 <= i < j < |nodes'|
      ensures nodes'[i] != nodes'[j]
    {
      assert i == p || nodes'[i] == nodes[if i < p then i else i - 1];
      assert j == p || nodes'[j] == nodes[if j < p then j else j - 1];
    }
  }

  lemma PutIn<T>(m: Links<T>, c: Change<T>)
    requires ChangeOk(c) && c.x in m && |m[c.x]| == LEVELS
    ensures Phases(m, c, Up(c.v, c.v + 1)) <==> Linked(m, Ins(c.nodes, c.p, c.x), Ins(c.lv, c.p, c.v))
  {
    var f, nodes', lv' := Up(c.v, c.v + 1), Ins(c.nodes, c.p, c.x), Ins(c.lv, c.p, c.v);
    AtShift(c.lv, c.p, c.v, 0);
    InsDistinct(c.nodes, c.p, c.x);
    forall l | 0 <= l < LEVELS
      ensures LevelOk(m, nodes', lv', l) <==> PhaseAt(m, c, f, l)
    {
      PhaseIn(m, c, l);
    }
  }

  lemma TakenOut<T>(m: Links<T>, c: Change<T>)
    requires ChangeOk(c) && c.x in m && |m[c.x]| == LEVELS
    ensures Phases(m, c, Down(c.v, LEVELS - 1)) <==> Linked(m, c.nodes, c.lv)
  {
    var f := Down(c.v, LEVELS - 1);
    forall l | 0 <= l < LEVELS
      ensures LevelOk(m, c.nodes, c.lv, l) <==> PhaseAt(m, c, f, l)
    {
      PhaseOut(m, c, l);
    }
  }

  // ------------------------------------------------------------- taking one away

  function Minus<X>(s: seq<X>, p: int): (r: seq<X>)
    requires 0 <= p < |s|
    ensures |r| == |s| - 1 && Ins(r, p, s[p]) == s
  {
    seq(|s| - 1, i requires 0 <= i < |s| - 1 => if i < p then s[i] else s[i + 1])
  }

  ghost function Without<T>(nodes: seq<Node<T>>, lv: seq<int>, r: int): Change<T>
    requires 0 <= r < |nodes| == |lv|
  {
    Change(Minus(nodes, r), Minus(lv, r), r, nodes[r], lv[r])
  }

  lemma WithoutOk<T>(m: Links<T>, nodes: seq<Node<T>>, lv: seq<int>, r: int)
    requires Linked(m, nodes, lv) && 0 < r < |nodes| && 0 <= lv[r] < LEVELS
    ensures ChangeOk(Without(nodes, lv, r))
  {
    var c := Without(nodes, lv, r);
    AtShift(c.lv, r, lv[r], 0);
    forall i | 0 <= i < |c.nodes|
      ensures c.nodes[i] == nodes[Shift(r, i)] && c.nodes[i] != c.x
    {
      AtShift(c.nodes, r, c.x, i);
    }
  }

  // The first node behind place p on level l, if any.
  ghost function NodeAfter<T>(nodes: seq<Node<T>>, lv: seq<int>, p: int, l: int): Node?<T>
    requires |nodes| == |lv| && 0 < p <= |lv|
  {
    var b := Next(lv, l, Prev(lv, l, p));
    if b < |lv| then nodes[b] else null
  }

  // On a level that no node from place p up to place r reaches, it is the same
  // from either, and whether or not the node at r is there.
  lemma NodeAfterWithout<T>(nodes: seq<Node<T>>, lv: seq<int>, p: int, r: int, l: int)
    requires |nodes| == |lv| && 0 < p <= r < |lv| && ChangeOk(Without(nodes, lv, r))
    requires lv[0] >= l && forall i :: p <= i <= r ==> lv[i] < l
    ensures NodeAfter(Minus(nodes, r), Minus(lv, r), r, l) == NodeAfter(nodes, lv, p, l)
  {
    var c := Without(nodes, lv, r);
    var a := Prev(lv, l, p);
    PrevIs(lv, l, p);
    PrevUnique(lv, l, r, a);
    assert lv == Ins(c.lv, r, lv[r]) && nodes == Ins(c.nodes, r, c.x);
    AtShift(c.lv, r, c.v, 0);
    AroundIns(c.lv, r, c.v, l);
    PrevIs(c.lv, l, r);
    NextIns(c.lv, r, c.v, l, a);
    AtShift(c.nodes, r, c.x, Next(c.lv, l, a));
  }

  lemma LinkedWithout<T>(m: Links<T>, m': Links<T>, nodes: seq<Node<T>>, lv: seq<int>, x: Node<T>)
    requires Linked(m, nodes, lv) && x !in nodes && m' == m - {x}
    ensures Linked(m', nodes, lv)
  {
    forall l | 0 <= l < LEVELS
      ensures LevelOk(m', nodes, lv, l)
    {
      assert LevelOk(m, nodes, lv, l);
      forall i | 0 <= i < |lv| && lv[i] >= l
        ensures WantAt(m', nodes, lv, l, i)
      {
        assert WantAt(m, nodes, lv, l, i);
      }
    }
  }
}
