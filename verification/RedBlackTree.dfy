module RedBlackTree {
  import opened Options
  import opened Ordering
  import opened RedBlackModel

  class Tree<T(!new)> {
    var root: Node?<T>
    const cmp: (T, T) -> int
    ghost var m: Model<T>

    ghost predicate SyncAt(n: Node<T>)
      requires n in m.v
      reads this, n
    {
      var r := m.v[n];
      n.parent == r.parent && n.left == r.left && n.right == r.right && n.data == r.data && n.color == r.color
    }

    // The nodes' fields are those of the snapshot.
    ghost predicate Sync()
      reads this, m.v.Keys
    {
      root == m.root && forall n :: n in m.v ==> SyncAt(n)
    }

    // The three nodes next to a rotation of x: its parent p, the kid y that
    // goes up and y's kid b that changes hands.
    static lemma RotNear(m: Model<T>, x: Node<T>, d: bool)
      requires Shape(m) && x in m.v && m.v[x].Kid(!d) in m.v
      ensures var p, y := m.v[x].parent, m.v[x].Kid(!d);
              var b := m.v[y].Kid(d);
              && x != y && (p != null ==> p != x && p != y) && (b != null ==> b != x && b != y && b != p && b in m.v)
              && (p == null <==> x == m.root)
              && (p != null ==> p in m.v && m.v[p].Kid(m.v[x].isLeft) == x != m.v[p].Kid(!m.v[x].isLeft))
    {
      var y := m.v[x].Kid(!d);
      assert SpanOk(m, x) && SpanOk(m, y) && KidOk(m, x, !d) && KidOk(m, y, d);
      assert ParentOk(m, x);
      if m.v[x].parent != null {
        assert KidOk(m, m.v[x].parent, true) && KidOk(m, m.v[x].parent, false) && SpanOk(m, m.v[x].parent);
      }
    }

    // The links that a rotation of x has to rewrite, told by node identity.
    static lemma RotLinks(m: Model<T>, x: Node<T>, d: bool, n: Node<T>)
      requires Shape(m) && x in m.v && m.v[x].Kid(!d) in m.v && n in m.v
      ensures var p, y := m.v[x].parent, m.v[x].Kid(!d);
              var b, r, r' := m.v[y].Kid(d), m.v[n], Rot(m, x, d).v[n];
              && r'.data == r.data && r'.color == r.color
              && r'.parent == (if n == x then y else if n == y then p else if n == b then x else r.parent)
              && r'.Kid(d) == (if n == y then x else if n == p && r.Kid(d) == x then y else r.Kid(d))
              && r'.Kid(!d) == (if n == x then b else if n == p && r.Kid(!d) == x then y else r.Kid(!d))
    {
      RotNear(m, x, d);
      assert SpanOk(m, x) && KidOk(m, x, d) && KidOk(m, n, d) && KidOk(m, n, !d);
    }

    method RotateLeft(x: Node<T>)
      requires Sync() && Shape(m) && x in m.v && m.v[x].Kid(false) in m.v
      modifies this, m.v.Keys
      ensures m == Rot(old(m), x, true) && m.v.Keys == old(m.v.Keys) && Sync()
    {
      RotNear(m, x, true);
      var y := x.right;
      m := Rot(m, x, true);
      x.right := y.left;
      if y.left != null {
        y.left.parent := x;
      }
      y.parent := x.parent;
      if x == root {
        y.parent := null;
        root := y;
      } else if x == x.parent.left {
        x.parent.left := y;
      } else {
        x.parent.right := y;
      }
      y.left := x;
      x.parent := y;
      forall n | n in m.v
        ensures SyncAt(n)
      {
        RotLinks(old(m), x, true, n);
        assert old(SyncAt(n));
      }
    }

    method RotateRight(x: Node<T>)
      requires Sync() && Shape(m) && x in m.v && m.v[x].Kid(true) in m.v
      modifies this, m.v.Keys
      ensures m == Rot(old(m), x, false) && m.v.Keys == old(m.v.Keys) && Sync()
    {
      RotNear(m, x, false);
      var y := x.left;
      m := Rot(m, x, false);
      x.left := y.right;
      if y.right != null {
        y.right.parent := x;
      }
      y.parent := x.parent;
      if x == root {
        y.parent := null;
        root := y;
      } else if x == x.parent.left {
        x.parent.left := y;
      } else {
        x.parent.right := y;
      }
      y.right := x;
      x.parent := y;
      forall n | n in m.v
        ensures SyncAt(n)
      {
        RotLinks(old(m), x, false, n);
        assert old(SyncAt(n));
      }
    }

    // A colour assignment; `bh` is the change it makes to n's black count.
    method SetColor(n: Node<T>, c: Color, ghost bh: int := 0)
      requires Sync() && n in m.v
      modifies this, m.v.Keys
      ensures m == Paint(old(m), n, c, bh) && m.v.Keys == old(m.v.Keys) && Sync()
    {
      n.color := c;
      m := Paint(m, n, c, bh);
      forall k | k in m.v
        ensures SyncAt(k)
      {
        assert old(SyncAt(k));
      }
    }

    // Node b turns black and its parent r red, and r is rotated to the left.
    method SwapRotateLeft(b: Node<T>, r: Node<T>)
      requires Sync() && Shape(m) && b in m.v && r in m.v && m.v[r].Kid(false) == b
      modifies this, m.v.Keys
      ensures m == Rot(Swap(old(m), b, r), r, true) && m.v.Keys == old(m.v.Keys) && Sync()
    {
      PaintShape(m, b, Black, 0);
      PaintShape(Paint(m, b, Black, 0), r, Red, 0);
      SetColor(b, Black);
      SetColor(r, Red);
      RotateLeft(r);
    }

    method SwapRotateRight(b: Node<T>, r: Node<T>)
      requires Sync() && Shape(m) && b in m.v && r in m.v && m.v[r].Kid(true) == b
      modifies this, m.v.Keys
      ensures m == Rot(Swap(old(m), b, r), r, false) && m.v.Keys == old(m.v.Keys) && Sync()
    {
      PaintShape(m, b, Black, 0);
      PaintShape(Paint(m, b, Black, 0), r, Red, 0);
      SetColor(b, Black);
      SetColor(r, Red);
      RotateRight(r);
    }

    // A red node below a red parent has a grandparent.
    static lemma Grandparent(m: Model<T>, z: Node<T>)
      requires InsertInv(m, z) && z != m.root && IsRed(m, m.v[z].parent)
      ensures InsertRank(m, z) > 0
      ensures var p := m.v[z].parent; var g := m.v[p].parent;
              && g in m.v && m.v[p].Kid(m.v[z].isLeft) == z != m.v[p].Kid(!m.v[z].isLeft)
              && m.v[g].Kid(m.v[p].isLeft) == p != m.v[g].Kid(!m.v[p].isLeft)
              && (m.v[g].Kid(!m.v[p].isLeft) != null ==> m.v[g].Kid(!m.v[p].isLeft) in m.v)
    {
      var p := m.v[z].parent;
      assert SpanOk(m, z) && ParentOk(m, z) && ParentOk(m, p) && KidOk(m, p, true) && KidOk(m, p, false);
      assert KidOk(m, m.v[p].parent, true) && KidOk(m, m.v[p].parent, false);
    }

    // One round of the repair after an insertion, below a left parent.
    method InsertAdjustLeft(z: Node<T>) returns (next: Node<T>)
      requires Sync() && InsertInv(m, z) && z != root && IsRed(m, m.v[z].parent) && m.v[m.v[z].parent].isLeft
      modifies this, m.v.Keys
      ensures Sync() && InsertInv(m, next)
      ensures m.v.Keys == old(m.v.Keys) && m.elems == old(m.elems)
      ensures InsertRank(m, next) < old(InsertRank(m, z))
    {
      Grandparent(m, z);
      var p, g := z.parent, z.parent.parent;
      var y := g.right;
      if y != null && y.color == Red {
        InsertRecolorOk(m, z, p, g, y, true);
        SetColor(y, Black);
        SetColor(p, Black);
        SetColor(g, Red, 1);
        next := g;
      } else {
        next := z;
        if z == p.right {
          InsertInnerOk(m, z, p, g, true);
          next := p;
          RotateLeft(p);
        }
        InsertOuterOk(m, next, next.parent, g, true);
        SwapRotateRight(next.parent, g);
      }
    }

    // The same round below a right parent.
    method InsertAdjustRight(z: Node<T>) returns (next: Node<T>)
      requires Sync() && InsertInv(m, z) && z != root && IsRed(m, m.v[z].parent) && !m.v[m.v[z].parent].isLeft
      modifies this, m.v.Keys
      ensures Sync() && InsertInv(m, next)
      ensures m.v.Keys == old(m.v.Keys) && m.elems == old(m.elems)
      ensures InsertRank(m, next) < old(InsertRank(m, z))
    {
      Grandparent(m, z);
      var p, g := z.parent, z.parent.parent;
      var y := g.left;
      if y != null && y.color == Red {
        InsertRecolorOk(m, z, p, g, y, false);
        SetColor(y, Black);
        SetColor(p, Black);
        SetColor(g, Red, 1);
        next := g;
      } else {
        next := z;
        if z == p.left {
          InsertInnerOk(m, z, p, g, false);
          next := p;
          RotateRight(p);
        }
        InsertOuterOk(m, next, next.parent, g, false);
        SwapRotateLeft(next.parent, g);
      }
    }

    method InsertAdjust(node: Node<T>)
      requires Sync() && InsertInv(m, node)
      modifies this, m.v.Keys
      ensures Sync() && RB(m) && m.v.Keys == old(m.v.Keys) && m.elems == old(m.elems)
    {
      var z := node;
      assert ParentOk(m, z);
      while z != root && z.parent.color == Red
        invariant Sync() && InsertInv(m, z) && m.v.Keys == old(m.v.Keys) && m.elems == old(m.elems)
        invariant z != root ==> z.parent in m.v
        decreases InsertRank(m, z)
      {
        Grandparent(m, z);
        if z.parent == z.parent.parent.left {
          z := InsertAdjustLeft(z);
        } else {
          z := InsertAdjustRight(z);
        }
        assert ParentOk(m, z);
      }
      InsertDone(m, z);
      SetColor(root, Black);
    }

    // Rule 4 of a deletion: w takes p's colour, p and f turn black, and p is
    // rotated to the left.
    method HandOverLeft(p: Node<T>, w: Node<T>, f: Node<T>)
      requires Sync() && Shape(m) && p in m.v && w in m.v && f in m.v && m.v[p].Kid(false) == w
      modifies this, m.v.Keys
      ensures m == Rot(HandOver(old(m), p, w, f), p, true) && m.v.Keys == old(m.v.Keys) && Sync()
    {
      HandOverShape(m, p, w, f);
      SetColor(w, p.color, 1);
      SetColor(p, Black, -1);
      SetColor(f, Black);
      RotateLeft(p);
    }

    method HandOverRight(p: Node<T>, w: Node<T>, f: Node<T>)
      requires Sync() && Shape(m) && p in m.v && w in m.v && f in m.v && m.v[p].Kid(true) == w
      modifies this, m.v.Keys
      ensures m == Rot(HandOver(old(m), p, w, f), p, false) && m.v.Keys == old(m.v.Keys) && Sync()
    {
      HandOverShape(m, p, w, f);
      SetColor(w, p.color, 1);
      SetColor(p, Black, -1);
      SetColor(f, Black);
      RotateRight(p);
    }

    // Rule 2 of a deletion: w turns red, and p's subtree is one black node short.
    method PushUpDeficit(p: Node<T>, w: Node<T>)
      requires Sync() && p in m.v && w in m.v && p != w
      modifies this, m.v.Keys
      ensures m == PushUp(old(m), p, w) && m.v.Keys == old(m.v.Keys) && Sync()
    {
      w.color := Red;
      m := PushUp(m, p, w);
      forall n | n in m.v
        ensures SyncAt(n)
      {
        assert old(SyncAt(n));
      }
    }

    // A sibling's kids are nodes, and its red near kid may be rotated up.
    static lemma SiblingKids(m: Model<T>, w: Node<T>)
      requires Shape(m) && w in m.v
      ensures forall e :: m.v[w].Kid(e) != null ==> m.v[w].Kid(e) in m.v
    {
      assert KidOk(m, w, true) && KidOk(m, w, false);
    }

    // One round of the repair after a removal, for a left kid x of `parent`
    // whose sibling w is black. `hole` is where a black node is missing
    // afterwards, if one still is.
    method DeleteBlackSiblingLeft(x: Node?<T>, parent: Node<T>, w: Node<T>)
      returns (next: Node?<T>, nextParent: Node?<T>, ghost hole: Node?<T>, ghost d: bool)
      requires Sync() && Deficit(m, x, parent, w, true) && !IsRed(m, w)
      modifies this, m.v.Keys
      ensures Sync() && DeleteInv(m, next, hole, d) && (hole != null ==> hole == nextParent)
      ensures m.v.Keys == old(m.v.Keys) && m.elems == old(m.elems)
      ensures DeleteRank(m, next) < old(DeleteRank(m, x))
    {
      SiblingExists(m, x, parent, true);
      SiblingKids(m, w);
      if (w.left == null || w.left.color == Black) && (w.right == null || w.right.color == Black) {
        DeletePushUpOk(m, x, parent, w, true);
        hole, d := m.v[parent].parent, m.v[parent].isLeft;
        PushUpDeficit(parent, w);
        next, nextParent := parent, parent.parent;
      } else {
        var u := w;
        if u.right == null || u.right.color == Black {
          DeleteNearRedOk(m, x, parent, u, u.left, true);
          SwapRotateRight(u.left, u);
          u := parent.right;
        }
        DeleteFarRedOk(m, x, parent, u, u.right, true);
        HandOverLeft(parent, u, u.right);
        next, nextParent, hole, d := root, parent, null, true;
        RepairedInv(m, true);
      }
    }

    // The whole round: a red sibling is first exchanged for a black one.
    method DeleteAdjustLeft(x: Node?<T>, parent: Node<T>)
      returns (next: Node?<T>, nextParent: Node?<T>, ghost hole: Node?<T>, ghost d: bool)
      requires Sync() && DeleteInv(m, x, parent, true) && !IsRed(m, x)
      modifies this, m.v.Keys
      ensures Sync() && DeleteInv(m, next, hole, d) && (hole != null ==> hole == nextParent)
      ensures m.v.Keys == old(m.v.Keys) && m.elems == old(m.elems)
      ensures DeleteRank(m, next) < old(DeleteRank(m, x))
    {
      SiblingExists(m, x, parent, true);
      var w := parent.right;
      if w.color == Red {
        DeleteRedSiblingOk(m, x, parent, w, true);
        SwapRotateLeft(w, parent);
        SiblingExists(m, x, parent, true);
        w := parent.right;
      }
      next, nextParent, hole, d := DeleteBlackSiblingLeft(x, parent, w);
    }

    // The same two steps for a right kid.
    method DeleteBlackSiblingRight(x: Node?<T>, parent: Node<T>, w: Node<T>)
      returns (next: Node?<T>, nextParent: Node?<T>, ghost hole: Node?<T>, ghost d: bool)
      requires Sync() && Deficit(m, x, parent, w, false) && !IsRed(m, w)
      modifies this, m.v.Keys
      ensures Sync() && DeleteInv(m, next, hole, d) && (hole != null ==> hole == nextParent)
      ensures m.v.Keys == old(m.v.Keys) && m.elems == old(m.elems)
      ensures DeleteRank(m, next) < old(DeleteRank(m, x))
    {
      SiblingExists(m, x, parent, false);
      SiblingKids(m, w);
      if (w.left == null || w.left.color == Black) && (w.right == null || w.right.color == Black) {
        DeletePushUpOk(m, x, parent, w, false);
        hole, d := m.v[parent].parent, m.v[parent].isLeft;
        PushUpDeficit(parent, w);
        next, nextParent := parent, parent.parent;
      } else {
        var u := w;
        if u.left == null || u.left.color == Black {
          DeleteNearRedOk(m, x, parent, u, u.right, false);
          SwapRotateLeft(u.right, u);
          u := parent.left;
        }
        DeleteFarRedOk(m, x, parent, u, u.left, false);
        HandOverRight(parent, u, u.left);
        next, nextParent, hole, d := root, parent, null, false;
        RepairedInv(m, false);
      }
    }

    method DeleteAdjustRight(x: Node?<T>, parent: Node<T>)
      returns (next: Node?<T>, nextParent: Node?<T>, ghost hole: Node?<T>, ghost d: bool)
      requires Sync() && DeleteInv(m, x, parent, false) && !IsRed(m, x)
      modifies this, m.v.Keys
      ensures Sync() && DeleteInv(m, next, hole, d) && (hole != null ==> hole == nextParent)
      ensures m.v.Keys == old(m.v.Keys) && m.elems == old(m.elems)
      ensures DeleteRank(m, next) < old(DeleteRank(m, x))
    {
      SiblingExists(m, x, parent, false);
      var w := parent.left;
      if w.color == Red {
        DeleteRedSiblingOk(m, x, parent, w, false);
        SwapRotateRight(w, parent);
        SiblingExists(m, x, parent, false);
        w := parent.left;
      }
      next, nextParent, hole, d := DeleteBlackSiblingRight(x, parent, w);
    }

    method DeleteAdjust(node: Node?<T>, p: Node<T>, ghost side: bool)
      requires Sync() && DeleteInv(m, node, p, side)
      modifies this, m.v.Keys
      ensures Sync() && RB(m) && m.v.Keys == old(m.v.Keys) && m.elems == old(m.elems)
    {
      var x, parent: Node?<T> := node, p;
      ghost var hole: Node?<T>, d := p, side;
      SiblingExists(m, x, p, d);
      while x != root && (x == null || x.color == Black)
        invariant Sync() && DeleteInv(m, x, hole, d) && m.v.Keys == old(m.v.Keys) && m.elems == old(m.elems)
        invariant hole != null ==> hole == parent
        invariant x != null ==> x in m.v
        decreases DeleteRank(m, x)
      {
        SiblingExists(m, x, hole, d);
        if x == parent.left && parent.right != null {
          x, parent, hole, d := DeleteAdjustLeft(x, parent);
        } else if x == parent.right && parent.left != null {
          x, parent, hole, d := DeleteAdjustRight(x, parent);
        }
        if hole != null { SiblingExists(m, x, hole, d); }
      }
      if x != null {
        DeleteDone(m, x, hole, d);
        SetColor(x, Black);
      }
    }

    // ------------------------------------------------------------- the interface

    ghost predicate Valid()
      reads this, m.v.Keys
    {
      Sync() && RB(m) && IsComparator(cmp) && Ascending(cmp, m.elems)
    }

    constructor (cmp: (T, T) -> int)
      requires IsComparator(cmp)
      ensures Valid() && m.elems == [] && m.v == map[] && this.cmp == cmp
    {
      this.cmp := cmp;
      root := null;
      m := Model(map[], null, [], []);
    }

    method MinNode(node: Node<T>) returns (p: Node<T>)
      requires Sync() && Shape(m) && node in m.v
      ensures p in m.v && m.v[p].left == null && m.v[p].idx == m.v[node].lo
      ensures m.v[node].lo <= m.v[p].lo && m.v[p].hi <= m.v[node].hi
    {
      p := node;
      assert KidOk(m, p, true) && SpanOk(m, p);
      while p.left != null
        invariant p in m.v && KidOk(m, p, true) && SpanOk(m, p)
        invariant m.v[p].lo == m.v[node].lo && m.v[p].hi <= m.v[node].hi
        decreases m.v[p].hi - m.v[p].lo
      {
        p := p.left;
        assert KidOk(m, p, true) && SpanOk(m, p);
      }
    }

    // The node holding the next larger data, if any.
    method NextNode(node: Node<T>) returns (next: Node?<T>)
      requires Sync() && Shape(m) && node in m.v
      ensures next == null <==> m.v[node].idx + 1 == |m.elems|
      ensures next != null ==> next in m.v && m.v[next].idx == m.v[node].idx + 1
      ensures node.right != null ==> next != null && next != m.root && m.v[next].left == null
    {
      assert KidOk(m, node, false) && SpanOk(m, node);
      if node.right != null {
        next := MinNode(node.right);
        assert SpanOk(m, next) && SpanOk(m, m.root) && SpanOk(m, node.right) && ParentOk(m, node) && SpanOk(m, node);
        return;
      }
      var source, dest := node, node.parent;
      assert ParentOk(m, source);
      while dest != null && source == dest.right
        invariant source in m.v && dest == m.v[source].parent && m.v[source].hi == m.v[node].idx + 1
        invariant ParentOk(m, source) && SpanOk(m, source)
        decreases |m.elems| - (m.v[source].hi - m.v[source].lo)
      {
        assert KidOk(m, dest, false) && SpanOk(m, dest) && ParentOk(m, dest);
        source, dest := dest, dest.parent;
      }
      next := dest;
      if dest != null {
        assert KidOk(m, dest, true) && KidOk(m, dest, false) && SpanOk(m, dest);
      }
    }

    method FindNode(node: Node?<T>, data: T, ghost lo: int, ghost hi: int) returns (r: Node?<T>)
      requires Valid() && Within(cmp, m.elems, data, lo, hi)
      requires if node == null then lo == hi else node in m.v && m.v[node].lo == lo && m.v[node].hi == hi
      ensures r == null <==> !Hits(cmp, m.elems, data)
      ensures r != null ==> r in m.v && m.v[r].idx == PlaceOf(cmp, m.elems, data)
      decreases hi - lo
    {
      if node == null {
        Missed(cmp, m.elems, data, lo);
        return null;
      }
      assert SpanOk(m, node) && KidOk(m, node, true) && KidOk(m, node, false);
      ghost var i := m.v[node].idx;
      Narrow(cmp, m.elems, data, lo, hi, i);
      var ret := cmp(data, node.data);
      if ret == 0 {
        r := node;
      } else if ret < 0 {
        r := FindNode(node.left, data, lo, i);
      } else {
        r := FindNode(node.right, data, i + 1, hi);
      }
    }

    method Find(data: T) returns (r: Option<T>)
      requires Valid()
      ensures r == if Hits(cmp, m.elems, data) then Some(m.elems[PlaceOf(cmp, m.elems, data)]) else None
    {
      if root == null {
        return None;
      }
      var node := FindNode(root, data, 0, |m.elems|);
      if node != null {
        assert SpanOk(m, node);
        return Some(node.data);
      }
      return None;
    }

    // A red leaf on the side of `dest` where `data` belongs.
    method AttachLeaf(dest: Node<T>, data: T) returns (node: Node<T>)
      requires Sync() && RB(m) && dest in m.v && m.v[dest].Kid(cmp(data, dest.data) < 0) == null
      modifies this, m.v.Keys
      ensures fresh(node) && Sync() && InsertInv(m, node) && m.v.Keys == old(m.v.Keys) + {node}
      ensures var k := old(m.v[dest].idx) + if cmp(data, old(dest.data)) < 0 then 0 else 1;
              0 <= k <= old(|m.elems|) && m.elems == old(m.elems[..k]) + [data] + old(m.elems[k..])
    {
      node := new Node(data, dest, Red);
      ghost var d, m0 := cmp(data, dest.data) < 0, m;
      AttachOk(m, dest, node, data, d);
      if cmp(data, dest.data) < 0 {
        dest.left := node;
      } else {
        dest.right := node;
      }
      m := Attach(m0, dest, node, data, d);
      forall n | n in m.v
        ensures SyncAt(n)
      {
        if n != node {
          AttachLinks(m0, dest, node, data, d, n);
          assert old(SyncAt(n));
        }
      }
    }

    // Where a node for `data` would hang; null if the data is there already.
    method FindSlot(data: T) returns (dest: Node?<T>)
      requires Valid() && root != null
      ensures dest == null <==> Hits(cmp, m.elems, data)
      ensures dest != null ==> dest in m.v && m.v[dest].Kid(cmp(data, dest.data) < 0) == null
      ensures dest != null ==>
                PlaceOf(cmp, m.elems, data) == m.v[dest].idx + if cmp(data, dest.data) < 0 then 0 else 1
    {
      var parent := root;
      dest := root;
      ghost var lo, hi := 0, |m.elems|;
      while parent != null
        invariant dest != null && dest in m.v && Within(cmp, m.elems, data, lo, hi)
        invariant parent != null ==> parent in m.v && m.v[parent].lo == lo && m.v[parent].hi == hi
        invariant parent == null ==> m.v[dest].Kid(cmp(data, dest.data) < 0) == null
        invariant parent == null ==> lo == hi == m.v[dest].idx + if cmp(data, dest.data) < 0 then 0 else 1
        decreases hi - lo, if parent == null then 0 else 1
      {
        dest := parent;
        assert SpanOk(m, dest) && KidOk(m, dest, true) && KidOk(m, dest, false);
        Narrow(cmp, m.elems, data, lo, hi, m.v[dest].idx);
        if cmp(data, parent.data) == 0 {
          return null;
        }
        if cmp(data, parent.data) < 0 {
          parent, hi := parent.left, m.v[dest].idx;
        } else {
          parent, lo := parent.right, m.v[dest].idx + 1;
        }
      }
      Missed(cmp, m.elems, data, lo);
    }

    method InsertBelow(dest: Node<T>, data: T)
      requires Sync() && RB(m) && dest in m.v && m.v[dest].Kid(cmp(data, dest.data) < 0) == null
      modifies this, m.v.Keys
      ensures Sync() && RB(m) && fresh(m.v.Keys - old(m.v.Keys))
      ensures var k := old(m.v[dest].idx) + if cmp(data, old(dest.data)) < 0 then 0 else 1;
              0 <= k <= old(|m.elems|) && m.elems == old(m.elems[..k]) + [data] + old(m.elems[k..])
    {
      var node := AttachLeaf(dest, data);
      InsertAdjust(node);
    }

    method InsertFirst(data: T)
      requires Valid() && root == null
      modifies this
      ensures Valid() && fresh(m.v.Keys) && m.elems == [data]
    {
      root := new Node(data, null, Black);
      m := RootAlone(root, data);
      RootAloneOk(root, data);
    }

    // 0 if `data` was added, -1 if its equal was there already.
    method Insert(data: T) returns (r: int)
      requires Valid()
      modifies this, m.v.Keys
      ensures Valid() && fresh(m.v.Keys - old(m.v.Keys))
      ensures m.elems == Added(cmp, old(m.elems), data)
      ensures r == if Hits(cmp, old(m.elems), data) then -1 else 0
    {
      if root == null {
        InsertFirst(data);
        return 0;
      }
      var dest := FindSlot(data);
      if dest == null {
        return -1;
      }
      AddedAscends(cmp, m.elems, data);
      InsertBelow(dest, data);
      r := 0;
    }

    // q, which has at most one kid, leaves the tree and its kid takes its place.
    method Unlink(q: Node<T>)
      requires Sync() && Shape(m) && q in m.v && q != root && (q.left == null || q.right == null)
      modifies this, m.v.Keys
      ensures 0 <= old(m.v[q].idx) < old(|m.elems|) == old(|m.at|)
      ensures m == Splice(old(m), q) && m.v.Keys == old(m.v.Keys) - {q} && Sync() && q.color == old(q.color)
    {
      assert ParentOk(m, q) && SpanOk(m, q) && KidOk(m, q, true) && KidOk(m, q, false);
      SpliceLinks(m, q, q.parent);
      var p, ch := q.parent, if q.left != null then q.left else q.right;
      if p.right == q {
        p.right := ch;
      } else {
        p.left := ch;
      }
      if ch != null {
        ch.parent := p;
      }
      m := Splice(m, q);
      forall n | n in m.v
        ensures SyncAt(n)
      {
        SpliceLinks(old(m), q, n);
        assert old(SyncAt(n));
      }
    }

    method SetNodeData(n: Node<T>, data: T)
      requires Sync() && RB(m) && n in m.v
      modifies this, m.v.Keys
      ensures 0 <= old(m.v[n].idx) < old(|m.elems|)
      ensures m == SetData(old(m), n, data) && RB(m) && m.v.Keys == old(m.v.Keys) && Sync()
    {
      SetDataOk(m, n, data);
      n.data := data;
      m := SetData(m, n, data);
      forall k | k in m.v
        ensures SyncAt(k)
      {
        assert old(SyncAt(k));
      }
    }

    // Takes q out and repairs the tree.
    method Remove(q: Node<T>)
      requires Sync() && RB(m) && q in m.v && q != root && (q.left == null || q.right == null)
      modifies this, m.v.Keys
      ensures Sync() && RB(m) && m.v.Keys == old(m.v.Keys) - {q}
      ensures 0 <= old(m.v[q].idx) < old(|m.elems|)
      ensures m.elems == old(m.elems[..m.v[q].idx]) + old(m.elems[m.v[q].idx + 1..])
    {
      SpliceOk(m, q);
      assert ParentOk(m, q);
      var p, ch := q.parent, if q.left != null then q.left else q.right;
      ghost var d := m.v[q].isLeft;
      Unlink(q);
      if q.color == Black {
        DeleteAdjust(ch, p, d);
      }
    }

    // Node takes over its successor's data, and the successor leaves.
    method DeleteWithTwoKids(node: Node<T>)
      requires Sync() && RB(m) && node in m.v && node.left != null && node.right != null
      modifies this, m.v.Keys
      ensures Sync() && RB(m) && m.v.Keys <= old(m.v.Keys)
      ensures 0 <= old(m.v[node].idx) < old(|m.elems|)
      ensures m.elems == old(m.elems[..m.v[node].idx]) + old(m.elems[m.v[node].idx + 1..])
    {
      assert SpanOk(m, node);
      ghost var s, i := m.elems, m.v[node].idx;
      var next := NextNode(node);
      assert SpanOk(m, next);
      SetNodeData(node, next.data);
      Remove(next);
      assert m.elems == s[..i] + s[i + 1..];
    }

    // The root takes over everything its only kid has.
    method DeleteRootWithOneKid(node: Node<T>)
      requires Sync() && RB(m) && node == root && (node.left == null) != (node.right == null)
      modifies this, m.v.Keys
      ensures Sync() && RB(m) && m.v.Keys <= old(m.v.Keys)
      ensures 0 <= old(m.v[node].idx) < old(|m.elems|)
      ensures m.elems == old(m.elems[..m.v[node].idx]) + old(m.elems[m.v[node].idx + 1..])
    {
      RootWithOneKid(m);
      var ch := if node.left != null then node.left else node.right;
      RootAloneOk(node, ch.data);
      node.parent := null;
      node.color := Black;
      node.left := ch.left;
      node.right := ch.right;
      node.data := ch.data;
      // The kid is a leaf, so no grandkids have to be given a new parent.
      m := RootAlone(node, node.data);
    }

    method DeleteNode(node: Node<T>)
      requires Sync() && RB(m) && node in m.v
      modifies this, m.v.Keys
      ensures Sync() && RB(m) && m.v.Keys <= old(m.v.Keys)
      ensures 0 <= old(m.v[node].idx) < old(|m.elems|)
      ensures m.elems == old(m.elems[..m.v[node].idx]) + old(m.elems[m.v[node].idx + 1..])
    {
      assert SpanOk(m, node) && KidOk(m, node, true) && KidOk(m, node, false);
      if node.left == null && node.right == null {
        if root == node {
          root := null;
          m := Model(map[], null, [], []);
        } else {
          Remove(node);
        }
      } else if node.left != null && node.right != null {
        DeleteWithTwoKids(node);
      } else if node == root {
        DeleteRootWithOneKid(node);
      } else {
        Remove(node);
      }
    }

    // The stored equal of `data`, which is gone afterwards.
    method Delete(data: T) returns (r: Option<T>)
      requires Valid()
      modifies this, m.v.Keys
      ensures Valid() && m.v.Keys <= old(m.v.Keys)
      ensures m.elems == Removed(cmp, old(m.elems), data)
      ensures r == if Hits(cmp, old(m.elems), data) then Some(old(m.elems)[PlaceOf(cmp, old(m.elems), data)]) else None
    {
      if root == null {
        return None;
      }
      var node := FindNode(root, data, 0, |m.elems|);
      if node == null {
        return None;
      }
      assert SpanOk(m, node);
      RemovedAscends(cmp, m.elems, data);
      r := Some(node.data);
      DeleteNode(node);
    }

    // The callbacks of a walk through a subtree, in order.
    method LoopNode(node: Node<T>, visited: seq<T>) returns (out: seq<T>)
      requires Sync() && Shape(m) && node in m.v
      ensures 0 <= m.v[node].lo <= m.v[node].hi <= |m.elems|
      ensures out == visited + m.elems[m.v[node].lo..m.v[node].hi]
      decreases m.v[node].hi - m.v[node].lo
    {
      ghost var lo, i, hi := m.v[node].lo, m.v[node].idx, m.v[node].hi;
      assert SpanOk(m, node) && KidOk(m, node, true) && KidOk(m, node, false);
      assert m.elems[lo..hi] == m.elems[lo..i] + [m.elems[i]] + m.elems[i + 1..hi];
      out := visited;
      if node.left != null {
        out := LoopNode(node.left, out);
      }
      assert out == visited + m.elems[lo..i];
      out := out + [node.data];
      assert out == visited + (m.elems[lo..i] + [m.elems[i]]);
      if node.right != null {
        out := LoopNode(node.right, out);
      }
      assert out == visited + (m.elems[lo..i] + [m.elems[i]]) + m.elems[i + 1..hi];
      assert out == visited + (m.elems[lo..i] + [m.elems[i]] + m.elems[i + 1..hi]);
    }

    method Loop() returns (out: seq<T>)
      requires Valid()
      ensures out == m.elems
    {
      out := [];
      if root != null {
        out := LoopNode(root, out);
      }
    }

    // Any run of insertions and deletions leaves exactly what the same run
    // leaves in a sorted set.
    method Replay(us: seq<Update<T>>)
      requires Valid()
      modifies this, m.v.Keys
      ensures Valid() && fresh(m.v.Keys - old(m.v.Keys))
      ensures m.elems == Run(cmp, old(m.elems), us)
    {
      for i := 0 to |us|
        invariant Valid() && fresh(m.v.Keys - old(m.v.Keys))
        invariant m.elems == Run(cmp, old(m.elems), us[..i])
      {
        assert us[..i + 1][..i] == us[..i];
        match us[i] {
          case Add(d) => var _ := Insert(d);
          case Del(d) => var _ := Delete(d);
        }
      }
      assert us[..|us|] == us;
    }
  }
}
