// The red-black tree's nodes and, over a snapshot of their fields, everything
// that rotations, repairs, insertion and removal do to it.
module RedBlackModel {
  import opened Powers

  datatype Color = Red | Black

  class Node<T> {
    var parent: Node?<T>
    var left: Node?<T>
    var right: Node?<T>
    var data: T
    var color: Color

    constructor (data: T, parent: Node?<T>, color: Color)
      ensures this.data == data && this.parent == parent && this.color == color
      ensures left == null && right == null
    {
      this.data, this.parent, this.color := data, parent, color;
      left, right := null, null;
    }
  }

  // One node as the proofs see it: its fields, which side of its parent it
  // hangs on, its place `idx` in the in-order sequence, the half-open interval
  // `lo..hi` of that sequence covered by its subtree, and the number `bh` of
  // black nodes on each path below it.
  datatype Rec<T> = Rec(parent: Node?<T>, left: Node?<T>, right: Node?<T>, data: T, color: Color,
                        isLeft: bool, idx: int, lo: int, hi: int, bh: int)
  {
    function Kid(left: bool): Node?<T> { if left then this.left else this.right }

    function SetKid(left: bool, c: Node?<T>): Rec<T> {
      if left then this.(left := c) else this.(right := c)
    }
  }

  // A whole tree: its nodes, its root, and its nodes and their data in order.
  datatype Model<T> = Model(v: map<Node<T>, Rec<T>>, root: Node?<T>, at: seq<Node<T>>, elems: seq<T>)

  // ---------------------------------------------------------------- shape

  ghost predicate SpanOk<T>(m: Model<T>, n: Node<T>)
    requires n in m.v
  {
    var r := m.v[n];
    0 <= r.lo <= r.idx < r.hi <= |m.at| == |m.elems| && m.at[r.idx] == n && m.elems[r.idx] == r.data
  }

  ghost predicate KidOk<T>(m: Model<T>, n: Node<T>, d: bool)
    requires n in m.v
  {
    var r := m.v[n];
    var c := r.Kid(d);
    if c == null then
      if d then r.lo == r.idx else r.hi == r.idx + 1
    else
      && c in m.v && m.v[c].parent == n && m.v[c].isLeft == d
      && if d then m.v[c].lo == r.lo && m.v[c].hi == r.idx else m.v[c].lo == r.idx + 1 && m.v[c].hi == r.hi
  }

  ghost predicate ParentOk<T>(m: Model<T>, n: Node<T>)
    requires n in m.v
  {
    var r := m.v[n];
    if r.parent == null then n == m.root else
      n != m.root && r.parent in m.v && m.v[r.parent].Kid(r.isLeft) == n
  }

  ghost predicate Shape<T>(m: Model<T>)
  {
    && |m.at| == |m.elems|
    && (m.root == null ==> m.v == map[] && m.elems == [])
    && (m.root != null ==> m.root in m.v && m.v[m.root].lo == 0 && m.v[m.root].hi == |m.elems|)
    && (forall n {:trigger SpanOk(m, n)} :: n in m.v ==> SpanOk(m, n))
    && (forall n, d {:trigger KidOk(m, n, d)} :: n in m.v ==> KidOk(m, n, d))
    && (forall n {:trigger ParentOk(m, n)} :: n in m.v ==> ParentOk(m, n))
  }

  // ------------------------------------------------------------- rotation

  // Node n after x is rotated towards side d, its kid y on the other side
  // taking its place.
  ghost function RotAt<T>(m: Model<T>, x: Node<T>, d: bool, n: Node<T>): Rec<T>
    requires x in m.v && m.v[x].Kid(!d) in m.v && n in m.v
  {
    var y := m.v[x].Kid(!d);
    var b := m.v[y].Kid(d);
    var r, rx, ry := m.v[n], m.v[x], m.v[y];
    if n == x then
      var r := r.SetKid(!d, b).(parent := y, isLeft := d);
      if d then r.(hi := ry.idx) else r.(lo := ry.idx + 1)
    else if n == y then
      r.SetKid(d, x).(parent := rx.parent, isLeft := rx.isLeft, lo := rx.lo, hi := rx.hi)
    else
      r.(left := if r.left == x then y else r.left,
      right := if r.right == x then y else r.right,
      parent := if n == b then x else r.parent,
      isLeft := if n == b then !d else r.isLeft)
  }

  ghost function Rot<T>(m: Model<T>, x: Node<T>, d: bool): (m': Model<T>)
    requires x in m.v && m.v[x].Kid(!d) in m.v
  {
    Model(map n | n in m.v :: RotAt(m, x, d, n), if m.root == x then m.v[x].Kid(!d) else m.root, m.at, m.elems)
  }

  lemma RotKid<T>(m: Model<T>, x: Node<T>, d: bool, n: Node<T>, e: bool)
    requires Shape(m) && x in m.v && m.v[x].Kid(!d) in m.v && n in m.v
    ensures KidOk(Rot(m, x, d), n, e)
  {
    var y := m.v[x].Kid(!d);
    assert SpanOk(m, x) && SpanOk(m, y);
    assert KidOk(m, n, e) && KidOk(m, x, !d) && KidOk(m, y, d);
  }

  lemma RotParent<T>(m: Model<T>, x: Node<T>, d: bool, n: Node<T>)
    requires Shape(m) && x in m.v && m.v[x].Kid(!d) in m.v && n in m.v
    ensures ParentOk(Rot(m, x, d), n)
  {
    var y := m.v[x].Kid(!d);
    assert SpanOk(m, x) && SpanOk(m, y);
    assert ParentOk(m, n) && ParentOk(m, x) && ParentOk(m, y);
    assert KidOk(m, x, d) && KidOk(m, x, !d) && KidOk(m, y, !d) && KidOk(m, y, d);
  }

  lemma RotShape<T>(m: Model<T>, x: Node<T>, d: bool)
    requires Shape(m) && x in m.v && m.v[x].Kid(!d) != null
    ensures m.v[x].Kid(!d) in m.v && Shape(Rot(m, x, d))
  {
    assert KidOk(m, x, !d);
    var m' := Rot(m, x, d);
    forall n | n in m'.v
      ensures SpanOk(m', n)
    {
      assert SpanOk(m, n) && SpanOk(m, x) && SpanOk(m, m.v[x].Kid(!d));
    }
    forall n, e | n in m'.v
      ensures KidOk(m', n, e)
    {
      RotKid(m, x, d, n, e);
    }
    forall n | n in m'.v
      ensures ParentOk(m', n)
    {
      RotParent(m, x, d, n);
    }
  }

  // ------------------------------------------------------ colour and balance

  ghost predicate IsRed<T>(m: Model<T>, c: Node?<T>) {
    c != null && c in m.v && m.v[c].color == Red
  }

  // Black nodes on each path from c, itself included, down to a leaf.
  ghost function Bh<T>(m: Model<T>, c: Node?<T>): int {
    if c == null || c !in m.v then 0 else m.v[c].bh + if m.v[c].color == Black then 1 else 0
  }

  // Every path below n has n's black count, but paths through the hole, the
  // side `d` of node `p`, have one black node too few.
  ghost predicate Balanced<T>(m: Model<T>, n: Node<T>, e: bool, p: Node?<T>, d: bool)
    requires n in m.v
  {
    0 <= m.v[n].bh == Bh(m, m.v[n].Kid(e)) + if n == p && e == d then 1 else 0
  }

  // A red node has no red kid, except that x may be a red kid of a red parent
  // and y may have red kids.
  ghost predicate ColorOk<T>(m: Model<T>, n: Node<T>, e: bool, x: Node?<T>, y: Node?<T>)
    requires n in m.v
  {
    m.v[n].color == Red && IsRed(m, m.v[n].Kid(e)) ==> m.v[n].Kid(e) == x || n == y
  }

  ghost predicate AllBalanced<T>(m: Model<T>, p: Node?<T>, d: bool) {
    forall n, e {:trigger Balanced(m, n, e, p, d)} :: n in m.v ==> Balanced(m, n, e, p, d)
  }

  ghost predicate AllColored<T>(m: Model<T>, x: Node?<T>, y: Node?<T>) {
    forall n, e {:trigger ColorOk(m, n, e, x, y)} :: n in m.v ==> ColorOk(m, n, e, x, y)
  }

  // The red-black rules.
  ghost predicate RB<T>(m: Model<T>) {
    Shape(m) && !IsRed(m, m.root) && AllBalanced(m, null, true) && AllColored(m, null, null)
  }

  // The rules while an insertion is being repaired: the red node z may have a
  // red parent, or be the root.
  ghost predicate InsertInv<T>(m: Model<T>, z: Node<T>) {
    && Shape(m) && z in m.v && IsRed(m, z)
    && (IsRed(m, m.root) ==> m.root == z)
    && AllBalanced(m, null, true) && AllColored(m, z, null)
  }

  // The rules while a deletion is being repaired: x hangs on side d of p and
  // lacks one black node, unless x is the root (p == null).
  ghost predicate DeleteInv<T>(m: Model<T>, x: Node?<T>, p: Node?<T>, d: bool) {
    && Shape(m) && m.root != null && !IsRed(m, m.root)
    && (if p == null then x == m.root else p in m.v && m.v[p].Kid(d) == x)
    && AllBalanced(m, p, d) && AllColored(m, x, x)
  }

  ghost function Paint<T>(m: Model<T>, n: Node<T>, c: Color, bh: int): (m': Model<T>)
    requires n in m.v
  {
    m.(v := m.v[n := m.v[n].(color := c, bh := m.v[n].bh + bh)])
  }

  lemma PaintShape<T>(m: Model<T>, n: Node<T>, c: Color, bh: int)
    requires Shape(m) && n in m.v
    ensures Shape(Paint(m, n, c, bh))
  {
    var m' := Paint(m, n, c, bh);
    forall k | k in m'.v
      ensures SpanOk(m', k) && ParentOk(m', k)
    {
      assert SpanOk(m, k) && ParentOk(m, k);
    }
    forall k, e | k in m'.v
      ensures KidOk(m', k, e)
    {
      assert KidOk(m, k, e);
    }
  }

  // Rule 1 of an insertion: a red uncle. The grandparent turns red and becomes
  // the new place to look at.
  ghost function InsertRecolor<T>(m: Model<T>, y: Node<T>, p: Node<T>, g: Node<T>): Model<T>
    requires y in m.v && p in m.v && g in m.v
  {
    Paint(Paint(Paint(m, y, Black, 0), p, Black, 0), g, Red, 1)
  }

  ghost predicate RedUncle<T>(m: Model<T>, z: Node<T>, p: Node<T>, g: Node<T>, y: Node<T>, d: bool) {
    && InsertInv(m, z) && p in m.v && g in m.v && y in m.v
    && m.v[z].parent == p && IsRed(m, p) && IsRed(m, y)
    && m.v[p].parent == g && m.v[g].Kid(d) == p && m.v[g].Kid(!d) == y
  }

  lemma InsertRecolorBalanced<T>(m: Model<T>, z: Node<T>, p: Node<T>, g: Node<T>, y: Node<T>, d: bool,
                                 n: Node<T>, e: bool)
    requires RedUncle(m, z, p, g, y, d) && n in m.v
    ensures Balanced(InsertRecolor(m, y, p, g), n, e, null, true)
  {
    assert KidOk(m, g, d) && KidOk(m, g, !d) && KidOk(m, n, e);
    assert Balanced(m, n, e, null, true) && ColorOk(m, g, d, z, null) && ParentOk(m, z);
  }

  lemma InsertRecolorColored<T>(m: Model<T>, z: Node<T>, p: Node<T>, g: Node<T>, y: Node<T>, d: bool,
                                n: Node<T>, e: bool)
    requires RedUncle(m, z, p, g, y, d) && n in m.v
    ensures ColorOk(InsertRecolor(m, y, p, g), n, e, g, null)
  {
    assert SpanOk(m, g) && KidOk(m, g, d) && KidOk(m, g, !d) && ParentOk(m, z) && KidOk(m, n, e);
    assert ColorOk(m, n, e, z, null);
  }

  // Bounds the rounds left of the repair after an insertion: the subtree in
  // question grows with every round but the last.
  ghost function InsertRank<T>(m: Model<T>, z: Node<T>): nat {
    if z in m.v && z != m.root && IsRed(m, m.v[z].parent) && m.v[z].hi - m.v[z].lo <= |m.elems|
    then 1 + |m.elems| - (m.v[z].hi - m.v[z].lo) else 0
  }

  lemma InsertRecolorOk<T>(m: Model<T>, z: Node<T>, p: Node<T>, g: Node<T>, y: Node<T>, d: bool)
    requires RedUncle(m, z, p, g, y, d)
    ensures InsertInv(InsertRecolor(m, y, p, g), g)
    ensures InsertRank(InsertRecolor(m, y, p, g), g) < InsertRank(m, z)
  {
    var m1 := Paint(m, y, Black, 0);
    PaintShape(m, y, Black, 0);
    PaintShape(m1, p, Black, 0);
    PaintShape(Paint(m1, p, Black, 0), g, Red, 1);
    assert ParentOk(m, z) && ParentOk(m, p) && KidOk(m, g, d) && KidOk(m, p, m.v[z].isLeft);
    assert SpanOk(m, g) && SpanOk(m, p) && SpanOk(m, z);
    forall n, e | n in m.v
      ensures Balanced(InsertRecolor(m, y, p, g), n, e, null, true) && ColorOk(InsertRecolor(m, y, p, g), n, e, g, null)
    {
      InsertRecolorBalanced(m, z, p, g, y, d, n, e);
      InsertRecolorColored(m, z, p, g, y, d, n, e);
    }
  }

  // What a rotation of x towards side d, taking its kid y up, does to kids,
  // colours and black counts. Nodes other than x, y and y's kid f keep theirs.
  ghost predicate Turned<T>(m: Model<T>, m': Model<T>, x: Node<T>, y: Node<T>, d: bool, f: Node?<T>) {
    && x in m.v && y in m.v && x != y && m'.v.Keys == m.v.Keys
    && m.v[x].Kid(!d) == y && m.v[y].parent == x && m.v[x].Kid(d) != x
    && (f != null ==> f in m.v && m.v[f].parent == y)
    && m'.v[x].Kid(d) == m.v[x].Kid(d) && m'.v[x].Kid(!d) == m.v[y].Kid(d)
    && m'.v[y].Kid(d) == x && m'.v[y].Kid(!d) == m.v[y].Kid(!d)
    && (forall n, e {:trigger m'.v[n].Kid(e)} :: n in m.v && n != x && n != y ==>
          m'.v[n].Kid(e) == if m.v[n].Kid(e) == x then y else m.v[n].Kid(e))
    && (forall n :: n in m.v && n != x && n != y ==> m'.v[n].bh == m.v[n].bh)
    && (forall n :: n in m.v && n != x && n != y && n != f ==> m'.v[n].color == m.v[n].color)
  }

  // A rotation that leaves the black count of the turned subtree unchanged
  // keeps the balance of every node outside it.
  lemma TurnedBalanced<T>(m: Model<T>, m': Model<T>, x: Node<T>, y: Node<T>, d: bool, f: Node?<T>,
                          p: Node?<T>, h: bool, n: Node<T>, e: bool)
    requires Turned(m, m', x, y, d, f) && Bh(m', y) == Bh(m, x)
    requires n in m.v && n != x && n != y && KidOk(m, n, e)
    requires Balanced(m, n, e, p, h)
    ensures Balanced(m', n, e, p, h)
  {
  }

  lemma TurnedColored<T>(m: Model<T>, m': Model<T>, x: Node<T>, y: Node<T>, d: bool, f: Node?<T>,
                         p: Node?<T>, n: Node<T>, e: bool)
    requires Turned(m, m', x, y, d, f) && (IsRed(m', y) ==> IsRed(m, x)) && (f != null ==> !IsRed(m', f))
    requires n in m.v && n != x && n != y && KidOk(m, n, e)
    requires ColorOk(m, n, e, p, null) && p != x
    requires p != null ==> p in m.v && (m.v[p].parent == x || m.v[p].parent == y)
    ensures ColorOk(m', n, e, null, null)
  {
  }

  // Rule 2 of an insertion: z is the inner grandchild. Rotating its parent p
  // makes p the outer grandchild, below z.
  ghost predicate Grandchild<T>(m: Model<T>, z: Node<T>, p: Node<T>, g: Node<T>, d: bool, e: bool) {
    && InsertInv(m, z) && p in m.v && g in m.v
    && m.v[z].parent == p && IsRed(m, p) && m.v[p].Kid(e) == z
    && m.v[p].parent == g && m.v[g].Kid(d) == p && !IsRed(m, m.v[g].Kid(!d))
  }

  lemma InsertInnerTurned<T>(m: Model<T>, z: Node<T>, p: Node<T>, g: Node<T>, d: bool)
    requires Grandchild(m, z, p, g, d, !d)
    ensures Turned(m, Rot(m, p, d), p, z, d, null)
  {
    assert SpanOk(m, p) && SpanOk(m, z) && KidOk(m, p, !d) && KidOk(m, p, d);
  }

  lemma InsertInnerBalanced<T>(m: Model<T>, m': Model<T>, z: Node<T>, p: Node<T>, g: Node<T>, d: bool,
                               n: Node<T>, e: bool)
    requires Grandchild(m, z, p, g, d, !d) && Turned(m, m', p, z, d, null) && n in m.v
    requires m'.v[p].color == Red && m'.v[p].bh == m.v[p].bh && m'.v[z].color == Red && m'.v[z].bh == m.v[z].bh
    ensures Balanced(m', n, e, null, true)
  {
    assert KidOk(m, p, d) && KidOk(m, p, !d) && KidOk(m, z, d) && KidOk(m, z, !d);
    assert Balanced(m, p, !d, null, true) && Balanced(m, p, d, null, true);
    assert Balanced(m, z, !d, null, true) && Balanced(m, z, d, null, true);
    if n != p && n != z {
      assert KidOk(m, n, e) && Balanced(m, n, e, null, true);
      TurnedBalanced(m, m', p, z, d, null, null, true, n, e);
    }
  }

  lemma InsertInnerColored<T>(m: Model<T>, m': Model<T>, z: Node<T>, p: Node<T>, g: Node<T>, d: bool,
                              n: Node<T>, e: bool)
    requires Grandchild(m, z, p, g, d, !d) && Turned(m, m', p, z, d, null) && n in m.v
    requires m'.v[p].color == Red && m'.v[z].color == Red
    ensures ColorOk(m', n, e, p, null)
  {
    assert KidOk(m, p, d) && KidOk(m, p, !d) && KidOk(m, z, d) && KidOk(m, z, !d);
    assert ColorOk(m, p, d, z, null) && ColorOk(m, z, d, z, null) && ColorOk(m, z, !d, z, null);
    if n != p && n != z {
      assert KidOk(m, n, e) && ColorOk(m, n, e, z, null);
      TurnedColored(m, m', p, z, d, null, z, n, e);
    }
  }

  lemma InsertInnerOk<T>(m: Model<T>, z: Node<T>, p: Node<T>, g: Node<T>, d: bool)
    requires Grandchild(m, z, p, g, d, !d)
    ensures Grandchild(Rot(m, p, d), p, z, g, d, d)
  {
    var m' := Rot(m, p, d);
    RotShape(m, p, d);
    InsertInnerTurned(m, z, p, g, d);
    assert ParentOk(m, z) && ParentOk(m, p) && SpanOk(m, p) && SpanOk(m, g) && SpanOk(m, z);
    assert KidOk(m, g, d) && KidOk(m, g, !d) && ColorOk(m, g, d, z, null);
    forall n, e | n in m.v
      ensures Balanced(m', n, e, null, true) && ColorOk(m', n, e, p, null)
    {
      InsertInnerBalanced(m, m', z, p, g, d, n, e);
      InsertInnerColored(m, m', z, p, g, d, n, e);
    }
  }

  // Painting node b black and node r red.
  ghost function Swap<T>(m: Model<T>, b: Node<T>, r: Node<T>): (m': Model<T>)
    requires b in m.v && r in m.v
    ensures m'.v.Keys == m.v.Keys && forall e :: m'.v[r].Kid(e) == m.v[r].Kid(e)
  {
    Paint(Paint(m, b, Black, 0), r, Red, 0)
  }

  ghost predicate SwapTurned<T>(m: Model<T>, m': Model<T>, x: Node<T>, y: Node<T>, d: bool) {
    && Turned(m, m', x, y, d, null)
    && m'.v[x].color == Red && m'.v[x].bh == m.v[x].bh
    && m'.v[y].color == Black && m'.v[y].bh == m.v[y].bh
  }

  lemma SwapTurns<T>(m: Model<T>, x: Node<T>, y: Node<T>, d: bool)
    requires Shape(m) && x in m.v && y in m.v && m.v[x].Kid(!d) == y
    ensures SwapTurned(m, Rot(Swap(m, y, x), x, d), x, y, d)
  {
    assert SpanOk(m, x) && SpanOk(m, y) && KidOk(m, x, d) && KidOk(m, x, !d);
  }

  lemma SwapShape<T>(m: Model<T>, x: Node<T>, y: Node<T>, d: bool)
    requires Shape(m) && x in m.v && y in m.v && m.v[x].Kid(!d) == y
    ensures Shape(Rot(Swap(m, y, x), x, d))
  {
    PaintShape(m, y, Black, 0);
    PaintShape(Paint(m, y, Black, 0), x, Red, 0);
    RotShape(Swap(m, y, x), x, d);
  }

  // Rule 3 of an insertion: z is the outer grandchild. Swapping the colours of
  // parent and grandparent and rotating the grandparent restores every rule.
  lemma InsertOuterBalanced<T>(m: Model<T>, m': Model<T>, z: Node<T>, p: Node<T>, g: Node<T>, d: bool,
                                n: Node<T>, e: bool)
    requires Grandchild(m, z, p, g, d, d) && SwapTurned(m, m', g, p, !d) && n in m.v
    ensures Balanced(m', n, e, null, true)
  {
    assert KidOk(m, g, !d) && KidOk(m, g, d) && KidOk(m, p, !d) && KidOk(m, p, d) && ColorOk(m, g, d, z, null);
    assert Balanced(m, p, !d, null, true) && Balanced(m, p, d, null, true);
    assert Balanced(m, g, !d, null, true) && Balanced(m, g, d, null, true);
    if n != p && n != g {
      assert KidOk(m, n, e) && Balanced(m, n, e, null, true);
      TurnedBalanced(m, m', g, p, !d, null, null, true, n, e);
    }
  }

  lemma InsertOuterColored<T>(m: Model<T>, m': Model<T>, z: Node<T>, p: Node<T>, g: Node<T>, d: bool,
                               n: Node<T>, e: bool)
    requires Grandchild(m, z, p, g, d, d) && SwapTurned(m, m', g, p, !d) && n in m.v
    ensures ColorOk(m', n, e, null, null)
  {
    assert SpanOk(m, p) && SpanOk(m, g);
    assert KidOk(m, g, !d) && KidOk(m, g, d) && KidOk(m, p, d) && KidOk(m, p, !d);
    assert ColorOk(m, p, !d, z, null) && ColorOk(m, g, d, z, null);
    if n != p && n != g {
      assert KidOk(m, n, e) && ColorOk(m, n, e, z, null);
      TurnedColored(m, m', g, p, !d, null, z, n, e);
    }
  }

  lemma InsertOuterOk<T>(m: Model<T>, z: Node<T>, p: Node<T>, g: Node<T>, d: bool)
    requires Grandchild(m, z, p, g, d, d)
    ensures var m' := Rot(Swap(m, p, g), g, !d);
            RB(m') && InsertInv(m', z) && m'.v[z].parent == p && !IsRed(m', p)
  {
    var m' := Rot(Swap(m, p, g), g, !d);
    SwapShape(m, g, p, !d);
    SwapTurns(m, g, p, !d);
    assert ParentOk(m, p) && ParentOk(m, z) && KidOk(m, p, d) && KidOk(m, p, !d) && SpanOk(m, g) && SpanOk(m, p);
    assert ColorOk(m, g, d, z, null);
    forall n, e | n in m.v
      ensures Balanced(m', n, e, null, true) && ColorOk(m', n, e, null, null) && ColorOk(m', n, e, z, null)
    {
      InsertOuterBalanced(m, m', z, p, g, d, n, e);
      InsertOuterColored(m, m', z, p, g, d, n, e);
    }
  }

  // ------------------------------------------------------ deletion, case by case

  // x, which is black, lacks a black node on side d of p; w is its sibling.
  ghost predicate Deficit<T>(m: Model<T>, x: Node?<T>, p: Node<T>, w: Node<T>, d: bool) {
    DeleteInv(m, x, p, d) && !IsRed(m, x) && w in m.v && m.v[p].Kid(!d) == w
  }

  // Bounds the rounds left of the repair after a removal.
  ghost function DeleteRank<T>(m: Model<T>, x: Node?<T>): nat {
    if x == m.root || IsRed(m, x) then 0 else
      var size := if x == null || x !in m.v then 0 else m.v[x].hi - m.v[x].lo;
      if size <= |m.elems| then 1 + |m.elems| - size else 0
  }

  // The repair loop always finds a sibling.
  lemma SiblingExists<T>(m: Model<T>, x: Node?<T>, p: Node<T>, d: bool)
    requires DeleteInv(m, x, p, d)
    ensures m.v[p].Kid(!d) in m.v && m.v[p].Kid(!d) != x && m.v[p].Kid(!d) != p
    ensures (x != null ==> x in m.v) && x != m.root && (!IsRed(m, x) ==> DeleteRank(m, x) > 0)
  {
    assert Balanced(m, p, d, p, d) && Balanced(m, p, !d, p, d) && KidOk(m, p, !d) && KidOk(m, p, d);
    assert SpanOk(m, p) && (x != null ==> SpanOk(m, x) && ParentOk(m, x));
    assert x != null ==> Balanced(m, x, true, p, d);
  }

  // Rule 1 of a deletion: a red sibling. Swapping colours and rotating p gives
  // x a black sibling.
  lemma DeleteRedSiblingBalanced<T>(m: Model<T>, m': Model<T>, x: Node?<T>, p: Node<T>, w: Node<T>, d: bool,
                                    n: Node<T>, e: bool)
    requires Deficit(m, x, p, w, d) && IsRed(m, w) && SwapTurned(m, m', p, w, d) && n in m.v
    ensures Balanced(m', n, e, p, d)
  {
    assert KidOk(m, p, d) && KidOk(m, p, !d) && KidOk(m, w, d) && KidOk(m, w, !d) && ColorOk(m, p, !d, x, x);
    assert Balanced(m, p, d, p, d) && Balanced(m, p, !d, p, d);
    assert Balanced(m, w, d, p, d) && Balanced(m, w, !d, p, d);
    if n != p && n != w {
      assert KidOk(m, n, e) && Balanced(m, n, e, p, d);
      TurnedBalanced(m, m', p, w, d, null, p, d, n, e);
    }
  }

  lemma DeleteRedSiblingColored<T>(m: Model<T>, m': Model<T>, x: Node?<T>, p: Node<T>, w: Node<T>, d: bool,
                                   n: Node<T>, e: bool)
    requires Deficit(m, x, p, w, d) && IsRed(m, w) && SwapTurned(m, m', p, w, d) && n in m.v
    ensures ColorOk(m', n, e, null, null)
  {
    assert SpanOk(m, p) && SpanOk(m, w) && KidOk(m, p, d) && KidOk(m, p, !d) && KidOk(m, w, d);
    assert ColorOk(m, p, !d, x, x) && ColorOk(m, w, d, x, x);
    if n != p && n != w {
      assert KidOk(m, n, e) && ColorOk(m, n, e, x, x);
      TurnedColored(m, m', p, w, d, null, null, n, e);
    }
  }

  lemma DeleteRedSiblingOk<T>(m: Model<T>, x: Node?<T>, p: Node<T>, w: Node<T>, d: bool)
    requires Deficit(m, x, p, w, d) && IsRed(m, w)
    ensures var m' := Rot(Swap(m, w, p), p, d);
            && DeleteInv(m', x, p, d) && m'.v[p].Kid(!d) == m.v[w].Kid(d)
            && !IsRed(m', x) && !IsRed(m', m'.v[p].Kid(!d)) && DeleteRank(m', x) <= DeleteRank(m, x)
  {
    var m' := Rot(Swap(m, w, p), p, d);
    SiblingExists(m, x, p, d);
    assert x != null ==> SpanOk(m, x);
    SwapShape(m, p, w, d);
    SwapTurns(m, p, w, d);
    assert SpanOk(m, p) && SpanOk(m, w) && KidOk(m, w, d) && KidOk(m, p, d) && KidOk(m, p, !d);
    assert ColorOk(m, w, d, x, x) && ColorOk(m, p, !d, x, x);
    forall n, e | n in m.v
      ensures Balanced(m', n, e, p, d) && ColorOk(m', n, e, x, x)
    {
      DeleteRedSiblingBalanced(m, m', x, p, w, d, n, e);
      DeleteRedSiblingColored(m, m', x, p, w, d, n, e);
    }
  }

  // Rule 2: a black sibling without red kids. It turns red, and p takes over
  // the deficit.
  ghost function PushUp<T>(m: Model<T>, p: Node<T>, w: Node<T>): Model<T>
    requires p in m.v && w in m.v
  {
    Paint(Paint(m, w, Red, 0), p, m.v[p].color, -1)
  }

  lemma DeletePushUpBalanced<T>(m: Model<T>, x: Node?<T>, p: Node<T>, w: Node<T>, d: bool, n: Node<T>, e: bool)
    requires Deficit(m, x, p, w, d) && !IsRed(m, w) && n in m.v
    ensures Balanced(PushUp(m, p, w), n, e, m.v[p].parent, m.v[p].isLeft)
  {
    assert KidOk(m, n, e) && KidOk(m, p, d) && KidOk(m, p, !d) && ParentOk(m, p);
    assert Balanced(m, n, e, p, d) && Balanced(m, p, !d, p, d) && Balanced(m, w, e, p, d);
  }

  lemma DeletePushUpColored<T>(m: Model<T>, x: Node?<T>, p: Node<T>, w: Node<T>, d: bool, n: Node<T>, e: bool)
    requires Deficit(m, x, p, w, d) && n in m.v
    requires !IsRed(m, m.v[w].left) && !IsRed(m, m.v[w].right)
    ensures ColorOk(PushUp(m, p, w), n, e, p, p)
  {
    assert SpanOk(m, w) && KidOk(m, n, e) && KidOk(m, p, !d) && ColorOk(m, n, e, x, x);
  }

  lemma DeletePushUpOk<T>(m: Model<T>, x: Node?<T>, p: Node<T>, w: Node<T>, d: bool)
    requires Deficit(m, x, p, w, d) && !IsRed(m, w)
    requires !IsRed(m, m.v[w].left) && !IsRed(m, m.v[w].right)
    ensures DeleteInv(PushUp(m, p, w), p, m.v[p].parent, m.v[p].isLeft)
    ensures DeleteRank(PushUp(m, p, w), p) < DeleteRank(m, x)
  {
    SiblingExists(m, x, p, d);
    assert x != null ==> SpanOk(m, x);
    PaintShape(m, w, Red, 0);
    PaintShape(Paint(m, w, Red, 0), p, m.v[p].color, -1);
    assert SpanOk(m, p) && ParentOk(m, p) && KidOk(m, p, d) && KidOk(m, p, !d) && ParentOk(m, w);
    forall n, e | n in m.v
      ensures Balanced(PushUp(m, p, w), n, e, m.v[p].parent, m.v[p].isLeft) && ColorOk(PushUp(m, p, w), n, e, p, p)
    {
      DeletePushUpBalanced(m, x, p, w, d, n, e);
      DeletePushUpColored(m, x, p, w, d, n, e);
    }
  }

  // Rule 3: the sibling's red kid c is the near one. Swapping their colours and
  // rotating the sibling makes c the sibling, with a red far kid.
  ghost predicate NearRed<T>(m: Model<T>, x: Node?<T>, p: Node<T>, w: Node<T>, c: Node<T>, d: bool) {
    && Deficit(m, x, p, w, d) && !IsRed(m, w)
    && m.v[w].Kid(d) == c && IsRed(m, c) && !IsRed(m, m.v[w].Kid(!d))
  }

  lemma DeleteNearRedBalanced<T>(m: Model<T>, m': Model<T>, x: Node?<T>, p: Node<T>, w: Node<T>, c: Node<T>, d: bool,
                                 n: Node<T>, e: bool)
    requires NearRed(m, x, p, w, c, d) && SwapTurned(m, m', w, c, !d) && n in m.v
    ensures Balanced(m', n, e, p, d)
  {
    assert SpanOk(m, p) && SpanOk(m, w) && SpanOk(m, c) && KidOk(m, p, !d);
    assert KidOk(m, w, d) && KidOk(m, w, !d) && KidOk(m, c, d) && KidOk(m, c, !d);
    assert Balanced(m, w, d, p, d) && Balanced(m, w, !d, p, d);
    assert Balanced(m, c, d, p, d) && Balanced(m, c, !d, p, d);
    if n != w && n != c {
      assert KidOk(m, n, e) && Balanced(m, n, e, p, d);
      TurnedBalanced(m, m', w, c, !d, null, p, d, n, e);
    }
  }

  lemma DeleteNearRedColored<T>(m: Model<T>, m': Model<T>, x: Node?<T>, p: Node<T>, w: Node<T>, c: Node<T>, d: bool,
                                n: Node<T>, e: bool)
    requires NearRed(m, x, p, w, c, d) && SwapTurned(m, m', w, c, !d) && n in m.v
    ensures ColorOk(m', n, e, null, null)
  {
    assert SpanOk(m, w) && SpanOk(m, c) && KidOk(m, w, d) && KidOk(m, w, !d) && KidOk(m, c, !d);
    assert ColorOk(m, c, !d, x, x);
    if n != w && n != c {
      assert KidOk(m, n, e) && ColorOk(m, n, e, x, x);
      TurnedColored(m, m', w, c, !d, null, null, n, e);
    }
  }

  lemma DeleteNearRedOk<T>(m: Model<T>, x: Node?<T>, p: Node<T>, w: Node<T>, c: Node<T>, d: bool)
    requires NearRed(m, x, p, w, c, d)
    ensures var m' := Rot(Swap(m, c, w), w, !d);
            && Deficit(m', x, p, c, d) && !IsRed(m', c)
            && m'.v[c].Kid(!d) == w && IsRed(m', w)
  {
    var m' := Rot(Swap(m, c, w), w, !d);
    SwapShape(m, w, c, !d);
    SwapTurns(m, w, c, !d);
    assert SpanOk(m, p) && SpanOk(m, w) && SpanOk(m, c) && KidOk(m, p, d) && KidOk(m, p, !d) && KidOk(m, w, d);
    forall n, e | n in m.v
      ensures Balanced(m', n, e, p, d) && ColorOk(m', n, e, x, x)
    {
      DeleteNearRedBalanced(m, m', x, p, w, c, d, n, e);
      DeleteNearRedColored(m, m', x, p, w, c, d, n, e);
    }
  }

  // Rule 4: the sibling's far kid f is red. Rotating p hands f's black node
  // over to x's side, and every rule holds again.
  ghost predicate FarRed<T>(m: Model<T>, x: Node?<T>, p: Node<T>, w: Node<T>, f: Node<T>, d: bool) {
    Deficit(m, x, p, w, d) && !IsRed(m, w) && m.v[w].Kid(!d) == f && IsRed(m, f)
  }

  ghost function HandOver<T>(m: Model<T>, p: Node<T>, w: Node<T>, f: Node<T>): (m': Model<T>)
    requires p in m.v && w in m.v && f in m.v
    ensures m'.v.Keys == m.v.Keys && forall e :: m'.v[p].Kid(e) == m.v[p].Kid(e)
  {
    Paint(Paint(Paint(m, w, m.v[p].color, 1), p, Black, -1), f, Black, 0)
  }

  ghost predicate HandedOver<T>(m: Model<T>, m': Model<T>, p: Node<T>, w: Node<T>, f: Node<T>, d: bool) {
    && Turned(m, m', p, w, d, f)
    && m'.v[p].color == Black && m'.v[p].bh == m.v[p].bh - 1
    && m'.v[w].color == m.v[p].color && m'.v[w].bh == m.v[w].bh + 1
    && m'.v[f].color == Black
  }

  lemma DeleteFarRedTurned<T>(m: Model<T>, x: Node?<T>, p: Node<T>, w: Node<T>, f: Node<T>, d: bool)
    requires FarRed(m, x, p, w, f, d)
    ensures HandedOver(m, Rot(HandOver(m, p, w, f), p, d), p, w, f, d)
  {
    assert SpanOk(m, p) && SpanOk(m, w) && SpanOk(m, f) && KidOk(m, p, d) && KidOk(m, p, !d) && KidOk(m, w, !d);
  }

  lemma DeleteFarRedShape<T>(m: Model<T>, x: Node?<T>, p: Node<T>, w: Node<T>, f: Node<T>, d: bool)
    requires FarRed(m, x, p, w, f, d)
    ensures Shape(Rot(HandOver(m, p, w, f), p, d))
  {
    HandOverShape(m, p, w, f);
    RotShape(HandOver(m, p, w, f), p, d);
  }

  // With every rule restored nothing is missing at the root.
  lemma RepairedInv<T>(m: Model<T>, d: bool)
    requires RB(m) && m.root != null
    ensures DeleteInv(m, m.root, null, d) && DeleteRank(m, m.root) == 0
  {
    forall n, e | n in m.v
      ensures Balanced(m, n, e, null, d) && ColorOk(m, n, e, m.root, m.root)
    {
      assert Balanced(m, n, e, null, true) && ColorOk(m, n, e, null, null);
    }
  }

  lemma HandOverShape<T>(m: Model<T>, p: Node<T>, w: Node<T>, f: Node<T>)
    requires Shape(m) && p in m.v && w in m.v && f in m.v
    ensures Shape(HandOver(m, p, w, f))
  {
    PaintShape(m, w, m.v[p].color, 1);
    PaintShape(Paint(m, w, m.v[p].color, 1), p, Black, -1);
    PaintShape(Paint(Paint(m, w, m.v[p].color, 1), p, Black, -1), f, Black, 0);
  }

  lemma DeleteFarRedBalanced<T>(m: Model<T>, m': Model<T>, x: Node?<T>, p: Node<T>, w: Node<T>, f: Node<T>, d: bool,
                                n: Node<T>, e: bool)
    requires FarRed(m, x, p, w, f, d) && HandedOver(m, m', p, w, f, d) && n in m.v
    ensures Balanced(m', n, e, null, true)
  {
    assert SpanOk(m, p) && SpanOk(m, w) && SpanOk(m, f);
    assert KidOk(m, p, d) && KidOk(m, p, !d) && KidOk(m, w, d) && KidOk(m, w, !d);
    assert Balanced(m, p, d, p, d) && Balanced(m, p, !d, p, d);
    assert Balanced(m, w, d, p, d) && Balanced(m, w, !d, p, d);
    if n != p && n != w {
      assert KidOk(m, n, e) && Balanced(m, n, e, p, d) && Balanced(m, n, e, null, true);
      TurnedBalanced(m, m', p, w, d, f, null, true, n, e);
    }
  }

  lemma DeleteFarRedColored<T>(m: Model<T>, m': Model<T>, x: Node?<T>, p: Node<T>, w: Node<T>, f: Node<T>, d: bool,
                               n: Node<T>, e: bool)
    requires FarRed(m, x, p, w, f, d) && HandedOver(m, m', p, w, f, d) && n in m.v
    ensures ColorOk(m', n, e, null, null)
  {
    if n != p && n != w {
      assert KidOk(m, n, e) && ColorOk(m, n, e, x, x);
      TurnedColored(m, m', p, w, d, f, null, n, e);
    }
  }

  lemma DeleteFarRedOk<T>(m: Model<T>, x: Node?<T>, p: Node<T>, w: Node<T>, f: Node<T>, d: bool)
    requires FarRed(m, x, p, w, f, d)
    ensures RB(Rot(HandOver(m, p, w, f), p, d))
  {
    var m' := Rot(HandOver(m, p, w, f), p, d);
    DeleteFarRedTurned(m, x, p, w, f, d);
    DeleteFarRedShape(m, x, p, w, f, d);
    assert SpanOk(m, p) && SpanOk(m, w) && KidOk(m, w, !d) && KidOk(m, p, !d) && ParentOk(m, f);
    forall n, e | n in m.v
      ensures Balanced(m', n, e, null, true) && ColorOk(m', n, e, null, null)
    {
      DeleteFarRedBalanced(m, m', x, p, w, f, d, n, e);
      DeleteFarRedColored(m, m', x, p, w, f, d, n, e);
    }
  }

  // The last step: painting x black pays for the missing black node.
  lemma DeleteDone<T>(m: Model<T>, x: Node<T>, p: Node?<T>, d: bool)
    requires DeleteInv(m, x, p, d) && x in m.v
    requires x == m.root || IsRed(m, x)
    ensures RB(Paint(m, x, Black, 0))
  {
    PaintShape(m, x, Black, 0);
    assert p != null ==> KidOk(m, p, d);
    assert ParentOk(m, x);
    forall n, e | n in m.v
      ensures Balanced(Paint(m, x, Black, 0), n, e, null, true) && ColorOk(Paint(m, x, Black, 0), n, e, null, null)
    {
      assert Balanced(m, n, e, p, d) && ColorOk(m, n, e, x, x) && KidOk(m, n, e);
    }
  }

  // ------------------------------------------------ adding and removing a node

  // A red leaf for `data` on the empty side d of `dest`.
  ghost function Attach<T>(m: Model<T>, dest: Node<T>, node: Node<T>, data: T, d: bool): Model<T>
    requires dest in m.v && 0 <= m.v[dest].idx < |m.elems| == |m.at|
  {
    var k := m.v[dest].idx + if d then 0 else 1;
    Model(map n | n in m.v.Keys + {node} ::
            if n == node then Rec(dest, null, null, data, Red, d, k, k, k + 1, 0) else
              var r := m.v[n];
              (if n == dest then r.SetKid(d, node) else r)
              .(idx := Up(r.idx, k, false), lo := Up(r.lo, k, d), hi := Up(r.hi, k, d)),
          m.root, m.at[..k] + [node] + m.at[k..], m.elems[..k] + [data] + m.elems[k..])
  }

  ghost function Up(i: int, k: int, strict: bool): int {
    if i > k || (i == k && !strict) then i + 1 else i
  }

  lemma AttachSpan<T>(m: Model<T>, dest: Node<T>, node: Node<T>, data: T, d: bool, n: Node<T>)
    requires Shape(m) && dest in m.v && node !in m.v && m.v[dest].Kid(d) == null
    requires 0 <= m.v[dest].idx < |m.elems| == |m.at|
    requires n == node || n in m.v
    ensures SpanOk(Attach(m, dest, node, data, d), n)
  {
    assert SpanOk(m, dest) && KidOk(m, dest, d);
    if n != node {
      assert SpanOk(m, n);
    }
  }

  lemma AttachKid<T>(m: Model<T>, dest: Node<T>, node: Node<T>, data: T, d: bool, n: Node<T>, e: bool)
    requires Shape(m) && dest in m.v && node !in m.v && m.v[dest].Kid(d) == null
    requires 0 <= m.v[dest].idx < |m.elems| == |m.at|
    requires n == node || n in m.v
    ensures KidOk(Attach(m, dest, node, data, d), n, e)
  {
    assert SpanOk(m, dest) && KidOk(m, dest, d);
    if n != node {
      assert SpanOk(m, n) && KidOk(m, n, e);
    }
  }

  lemma AttachParent<T>(m: Model<T>, dest: Node<T>, node: Node<T>, data: T, d: bool, n: Node<T>)
    requires Shape(m) && dest in m.v && node !in m.v && m.v[dest].Kid(d) == null
    requires 0 <= m.v[dest].idx < |m.elems| == |m.at|
    requires n == node || n in m.v
    ensures ParentOk(Attach(m, dest, node, data, d), n)
  {
    if n != node {
      assert ParentOk(m, n);
    }
  }

  // The fields of the other nodes once `node` hangs below dest.
  lemma AttachLinks<T>(m: Model<T>, dest: Node<T>, node: Node<T>, data: T, d: bool, n: Node<T>)
    requires dest in m.v && 0 <= m.v[dest].idx < |m.elems| == |m.at| && n in m.v && n != node
    ensures var r, r' := m.v[n], Attach(m, dest, node, data, d).v[n];
            && r'.parent == r.parent && r'.data == r.data && r'.color == r.color
            && r'.left == (if n == dest && d then node else r.left)
            && r'.right == (if n == dest && !d then node else r.right)
  {
  }

  lemma AttachShape<T>(m: Model<T>, dest: Node<T>, node: Node<T>, data: T, d: bool)
    requires Shape(m) && dest in m.v && node !in m.v && m.v[dest].Kid(d) == null
    ensures 0 <= m.v[dest].idx < |m.elems| == |m.at| && Shape(Attach(m, dest, node, data, d))
  {
    assert SpanOk(m, dest) && SpanOk(m, m.root) && KidOk(m, dest, d);
    var m' := Attach(m, dest, node, data, d);
    forall n | n in m'.v
      ensures SpanOk(m', n)
    {
      AttachSpan(m, dest, node, data, d, n);
    }
    forall n, e | n in m'.v
      ensures KidOk(m', n, e)
    {
      AttachKid(m, dest, node, data, d, n, e);
    }
    forall n | n in m'.v
      ensures ParentOk(m', n)
    {
      AttachParent(m, dest, node, data, d, n);
    }
  }

  lemma AttachOk<T>(m: Model<T>, dest: Node<T>, node: Node<T>, data: T, d: bool)
    requires RB(m) && dest in m.v && node !in m.v && m.v[dest].Kid(d) == null
    ensures 0 <= m.v[dest].idx < |m.elems| == |m.at| && InsertInv(Attach(m, dest, node, data, d), node)
  {
    AttachShape(m, dest, node, data, d);
    var m' := Attach(m, dest, node, data, d);
    forall n, e | n in m'.v
      ensures Balanced(m', n, e, null, true) && ColorOk(m', n, e, node, null)
    {
      if n != node {
        assert Balanced(m, n, e, null, true) && ColorOk(m, n, e, null, null) && KidOk(m, n, e);
      }
    }
  }

  // Taking out node q, which has at most one kid; the kid takes q's place.
  ghost function OnlyKid<T>(m: Model<T>, q: Node<T>): Node?<T>
    requires q in m.v
  {
    if m.v[q].left != null then m.v[q].left else m.v[q].right
  }

  ghost function Down(i: int, k: int): int { if i > k then i - 1 else i }

  ghost function SpliceAt<T>(m: Model<T>, q: Node<T>, n: Node<T>): Rec<T>
    requires q in m.v && n in m.v
  {
    var ch, r, k := OnlyKid(m, q), m.v[n], m.v[q].idx;
    r.(idx := Down(r.idx, k), lo := Down(r.lo, k), hi := Down(r.hi, k),
    left := if r.left == q then ch else r.left,
    right := if r.right == q then ch else r.right,
    parent := if n == ch then m.v[q].parent else r.parent,
    isLeft := if n == ch then m.v[q].isLeft else r.isLeft)
  }

  ghost function Splice<T>(m: Model<T>, q: Node<T>): Model<T>
    requires q in m.v && 0 <= m.v[q].idx < |m.elems| == |m.at|
  {
    var k := m.v[q].idx;
    Model(map n | n in m.v.Keys - {q} :: SpliceAt(m, q, n), m.root,
          m.at[..k] + m.at[k + 1..], m.elems[..k] + m.elems[k + 1..])
  }

  lemma SpliceKid<T>(m: Model<T>, q: Node<T>, n: Node<T>, e: bool)
    requires Shape(m) && q in m.v && q != m.root && (m.v[q].left == null || m.v[q].right == null)
    requires 0 <= m.v[q].idx < |m.elems| == |m.at|
    requires n in m.v && n != q
    ensures KidOk(Splice(m, q), n, e)
  {
    assert SpanOk(m, q) && SpanOk(m, n) && KidOk(m, q, true) && KidOk(m, q, false) && ParentOk(m, q);
    assert KidOk(m, n, e);
  }

  lemma SpliceParent<T>(m: Model<T>, q: Node<T>, n: Node<T>)
    requires Shape(m) && q in m.v && q != m.root && (m.v[q].left == null || m.v[q].right == null)
    requires 0 <= m.v[q].idx < |m.elems| == |m.at|
    requires n in m.v && n != q
    ensures ParentOk(Splice(m, q), n)
  {
    assert SpanOk(m, q) && KidOk(m, q, true) && KidOk(m, q, false) && ParentOk(m, q) && ParentOk(m, n);
    assert KidOk(m, m.v[q].parent, m.v[q].isLeft) && SpanOk(m, m.v[q].parent);
  }

  lemma SpliceShape<T>(m: Model<T>, q: Node<T>)
    requires Shape(m) && q in m.v && q != m.root && (m.v[q].left == null || m.v[q].right == null)
    ensures 0 <= m.v[q].idx < |m.elems| == |m.at| && Shape(Splice(m, q))
  {
    assert SpanOk(m, q) && SpanOk(m, m.root);
    var m' := Splice(m, q);
    forall n | n in m'.v
      ensures SpanOk(m', n)
    {
      assert SpanOk(m, n);
    }
    forall n, e | n in m'.v
      ensures KidOk(m', n, e)
    {
      SpliceKid(m, q, n, e);
    }
    forall n | n in m'.v
      ensures ParentOk(m', n)
    {
      SpliceParent(m, q, n);
    }
  }

  // The links that taking out q rewrites, told by node identity.
  lemma SpliceLinks<T>(m: Model<T>, q: Node<T>, n: Node<T>)
    requires Shape(m) && q in m.v && q != m.root && (m.v[q].left == null || m.v[q].right == null)
    requires 0 <= m.v[q].idx < |m.elems| == |m.at|
    requires n in m.v && n != q
    ensures var p, ch, r, r' := m.v[q].parent, OnlyKid(m, q), m.v[n], Splice(m, q).v[n];
            && p in m.v && p != q && ch != q && (ch != null ==> ch in m.v && ch != p)
            && (m.v[p].right == q) == !m.v[q].isLeft && (m.v[p].left == q) == m.v[q].isLeft
            && r'.data == r.data && r'.color == r.color
            && r'.parent == (if n == ch then p else r.parent)
            && r'.left == (if n == p && m.v[q].isLeft then ch else r.left)
            && r'.right == (if n == p && !m.v[q].isLeft then ch else r.right)
  {
    assert SpanOk(m, q) && KidOk(m, q, true) && KidOk(m, q, false) && ParentOk(m, q);
    assert KidOk(m, n, true) && KidOk(m, n, false) && SpanOk(m, m.v[q].parent);
    assert KidOk(m, m.v[q].parent, true) && KidOk(m, m.v[q].parent, false);
  }

  // Taking out a black node leaves its kid's side one black node short; taking
  // out a red one breaks nothing.
  lemma SpliceOk<T>(m: Model<T>, q: Node<T>)
    requires RB(m) && q in m.v && q != m.root && (m.v[q].left == null || m.v[q].right == null)
    ensures 0 <= m.v[q].idx < |m.elems| == |m.at|
    ensures m.v[q].color == Black ==> DeleteInv(Splice(m, q), OnlyKid(m, q), m.v[q].parent, m.v[q].isLeft)
    ensures m.v[q].color == Red ==> RB(Splice(m, q))
  {
    SpliceShape(m, q);
    var m' := Splice(m, q);
    var p, d, ch := m.v[q].parent, m.v[q].isLeft, OnlyKid(m, q);
    assert ParentOk(m, q) && KidOk(m, q, true) && KidOk(m, q, false);
    assert Balanced(m, q, true, null, true) && Balanced(m, q, false, null, true);
    assert ColorOk(m, q, true, null, null) && ColorOk(m, q, false, null, null);
    assert SpanOk(m, p) && SpanOk(m, q);
    forall n, e | n in m'.v
      ensures m.v[q].color == Black ==> Balanced(m', n, e, p, d) && ColorOk(m', n, e, ch, ch)
      ensures m.v[q].color == Red ==> Balanced(m', n, e, null, true) && ColorOk(m', n, e, null, null)
    {
      assert KidOk(m, n, e) && Balanced(m, n, e, null, true) && ColorOk(m, n, e, null, null);
      assert ch != null ==> Balanced(m, ch, true, null, true);
    }
  }

  // The only kid of a root without siblings to lean on moves into the root.
  ghost function RootAlone<T>(r: Node<T>, data: T): Model<T> {
    Model(map[r := Rec(null, null, null, data, Black, true, 0, 0, 1, 0)], r, [r], [data])
  }

  lemma RootAloneOk<T>(r: Node<T>, data: T)
    ensures RB(RootAlone(r, data))
  {
    var m := RootAlone(r, data);
    assert SpanOk(m, r) && KidOk(m, r, true) && KidOk(m, r, false) && ParentOk(m, r);
  }

  lemma CountNotNegative<T>(m: Model<T>, n: Node<T>)
    requires RB(m) && n in m.v
    ensures m.v[n].bh >= 0
  {
    assert Balanced(m, n, true, null, true);
  }

  // A red node without black nodes below it has no kids.
  lemma RedWithoutKid<T>(m: Model<T>, n: Node<T>, e: bool)
    requires RB(m) && n in m.v && m.v[n].color == Red && m.v[n].bh == 0
    ensures m.v[n].Kid(e) == null
  {
    var k := m.v[n].Kid(e);
    assert KidOk(m, n, e) && ColorOk(m, n, e, null, null) && Balanced(m, n, e, null, true);
    if k != null {
      CountNotNegative(m, k);
    }
  }

  // A root with just one kid is the whole tree together with that kid, which
  // is a red leaf.
  lemma RootWithOneKid<T>(m: Model<T>)
    requires RB(m) && m.root != null
    requires (m.v[m.root].left == null) != (m.v[m.root].right == null)
    ensures var r, ch := m.root, OnlyKid(m, m.root);
            && ch in m.v && ch != r && m.v[ch].left == null && m.v[ch].right == null && m.v.Keys == {r, ch}
            && 0 <= m.v[r].idx < |m.elems| == 2
            && m.elems[..m.v[r].idx] + m.elems[m.v[r].idx + 1..] == [m.v[ch].data]
  {
    var r, ch := m.root, OnlyKid(m, m.root);
    assert SpanOk(m, r) && KidOk(m, r, true) && KidOk(m, r, false) && SpanOk(m, ch);
    assert Balanced(m, r, true, null, true) && Balanced(m, r, false, null, true);
    assert Balanced(m, ch, true, null, true);
    assert KidOk(m, ch, true) && KidOk(m, ch, false);
    RedWithoutKid(m, ch, true);
    RedWithoutKid(m, ch, false);
    forall n | n in m.v
      ensures n == r || n == ch
    {
      assert SpanOk(m, n);
    }
  }

  // Overwriting the data of node n.
  ghost function SetData<T>(m: Model<T>, n: Node<T>, data: T): Model<T>
    requires n in m.v && 0 <= m.v[n].idx < |m.elems|
  {
    m.(v := m.v[n := m.v[n].(data := data)], elems := m.elems[m.v[n].idx := data])
  }

  lemma SetDataOk<T>(m: Model<T>, n: Node<T>, data: T)
    requires RB(m) && n in m.v
    ensures 0 <= m.v[n].idx < |m.elems| && RB(SetData(m, n, data))
  {
    assert SpanOk(m, n);
    var m' := SetData(m, n, data);
    forall k | k in m'.v
      ensures SpanOk(m', k) && ParentOk(m', k)
    {
      assert SpanOk(m, k) && ParentOk(m, k);
    }
    forall k, e | k in m'.v
      ensures KidOk(m', k, e) && Balanced(m', k, e, null, true) && ColorOk(m', k, e, null, null)
    {
      assert KidOk(m, k, e) && Balanced(m, k, e, null, true) && ColorOk(m, k, e, null, null);
    }
  }

  // The end of an insertion's repair.
  lemma InsertDone<T>(m: Model<T>, z: Node<T>)
    requires InsertInv(m, z) && (z == m.root || !IsRed(m, m.v[z].parent))
    ensures m.root in m.v && RB(Paint(m, m.root, Black, 0))
  {
    assert ParentOk(m, z);
    PaintShape(m, m.root, Black, 0);
    var m' := Paint(m, m.root, Black, 0);
    forall n, e | n in m.v
      ensures Balanced(m', n, e, null, true) && ColorOk(m', n, e, null, null)
    {
      assert Balanced(m, n, e, null, true) && ColorOk(m, n, e, z, null) && KidOk(m, n, e) && ParentOk(m, m.root);
    }
  }

  // ------------------------------------------------------------------ height

  // Nodes on the longest path from n down.
  ghost function Height<T>(m: Model<T>, n: Node?<T>): nat
    requires Shape(m) && (n != null ==> n in m.v)
    decreases if n == null then -1 else m.v[n].hi - m.v[n].lo
  {
    if n == null then 0 else
      assert SpanOk(m, n) && KidOk(m, n, true) && KidOk(m, n, false);
      var l, r := Height(m, m.v[n].left), Height(m, m.v[n].right);
      1 + if l < r then r else l
  }

  // Two reds never meet on a path, and every path has the same blacks.
  lemma {:induction false} HeightAndSize<T>(m: Model<T>, n: Node?<T>)
    requires RB(m) && (n != null ==> n in m.v)
    ensures 0 <= Bh(m, n)
    ensures Height(m, n) <= 2 * Bh(m, n) + if IsRed(m, n) then 1 else 0
    ensures Pow2(Bh(m, n)) <= 1 + if n == null then 0 else m.v[n].hi - m.v[n].lo
    decreases if n == null then -1 else m.v[n].hi - m.v[n].lo
  {
    if n != null {
      assert SpanOk(m, n) && KidOk(m, n, true) && KidOk(m, n, false);
      assert Balanced(m, n, true, null, true) && Balanced(m, n, false, null, true);
      assert ColorOk(m, n, true, null, null) && ColorOk(m, n, false, null, null);
      HeightAndSize(m, m.v[n].left);
      HeightAndSize(m, m.v[n].right);
    }
  }

  // The height is at most 2 * log2(n + 1) for a tree of n elements.
  lemma HeightBound<T>(m: Model<T>)
    requires RB(m)
    ensures Pow2(Height(m, m.root)) <= (|m.elems| + 1) * (|m.elems| + 1)
  {
    HeightAndSize(m, m.root);
    var b: nat := Bh(m, m.root);
    Pow2Mono(Height(m, m.root), b + b);
    Pow2Sum(b, b);
    Squares(Pow2(b), |m.elems| + 1);
  }
}