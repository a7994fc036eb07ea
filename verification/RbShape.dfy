/**
 Shapes of the red-black trees of `devicemodel/include/tree.h`.

 `Tree` records which heap node sits where and with which colour; `Ctx` is a
 tree with one subtree cut out, read from the hole up to the root.  The heap
 code walks up and down parent links; its ghost state is a pair (ctx, tree)
 whose `Plug` is the whole tree.
 */
module RbShape {

  datatype Color = Black | Red

  /** The descriptor a device registers (`struct mem_range`). */
  datatype MemRange = MemRange(name: string, flags: nat, handler: nat, base: nat, size: nat)

  /** `struct mmio_rb_range`: the inclusive range [base, end] plus the tree links. */
  class Range {
    const param: MemRange
    const base: nat
    const end: nat

    var left: Range?
    var right: Range?
    var parent: Range?
    var color: Color

    constructor (param: MemRange, base: nat, end: nat)
      ensures this.param == param && this.base == base && this.end == end
    {
      this.param, this.base, this.end := param, base, end;
      left, right, parent, color := null, null, null, Black;
    }
  }

  datatype Tree = Leaf | Node(left: Tree, elm: Range, color: Color, right: Tree)

  datatype Ctx =
    | Top
    | InLeft(up: Ctx, elm: Range, color: Color, right: Tree)
    | InRight(up: Ctx, left: Tree, elm: Range, color: Color)

  function Root(t: Tree): Range? {
    if t.Leaf? then null else t.elm
  }

  /** The node above the hole. */
  function Above(c: Ctx): Range? {
    if c.Top? then null else c.elm
  }

  ghost function Nodes(t: Tree): set<Range> {
    match t
    case Leaf => {}
    case Node(l, n, _, r) => Nodes(l) + {n} + Nodes(r)
  }

  ghost function CtxNodes(c: Ctx): set<Range> {
    match c
    case Top => {}
    case InLeft(up, n, _, r) => CtxNodes(up) + {n} + Nodes(r)
    case InRight(up, l, n, _) => CtxNodes(up) + {n} + Nodes(l)
  }

  ghost function Plug(c: Ctx, t: Tree): Tree {
    match c
    case Top => t
    case InLeft(up, n, k, r) => Plug(up, Node(t, n, k, r))
    case InRight(up, l, n, k) => Plug(up, Node(l, n, k, t))
  }

  /** Every node occurs once. */
  ghost predicate Apart(t: Tree) {
    match t
    case Leaf => true
    case Node(l, n, _, r) =>
      Apart(l) && Apart(r) && n !in Nodes(l) && n !in Nodes(r) && Nodes(l) !! Nodes(r)
  }

  ghost predicate ApartCtx(c: Ctx) {
    match c
    case Top => true
    case InLeft(up, n, _, r) =>
      ApartCtx(up) && Apart(r) && n !in CtxNodes(up) && n !in Nodes(r) && CtxNodes(up) !! Nodes(r)
    case InRight(up, l, n, _) =>
      ApartCtx(up) && Apart(l) && n !in CtxNodes(up) && n !in Nodes(l) && CtxNodes(up) !! Nodes(l)
  }

  /** One step from the hole towards the root. */
  ghost function Fill(c: Ctx, t: Tree): (r: Tree)
    requires !c.Top?
    ensures r.Node? && r.elm == c.elm && r.color == c.color
  {
    match c
    case InLeft(_, n, k, r) => Node(t, n, k, r)
    case InRight(_, l, n, k) => Node(l, n, k, t)
  }

  /** The context `i` placed in the hole of `c`. */
  ghost function Compose(i: Ctx, c: Ctx): Ctx {
    match i
    case Top => c
    case InLeft(up, n, k, r) => InLeft(Compose(up, c), n, k, r)
    case InRight(up, l, n, k) => InRight(Compose(up, c), l, n, k)
  }

  // What the link fields hold, as a value: `m` is a snapshot of the fields of a set of nodes.

  datatype Cell = Cell(left: Range?, right: Range?, parent: Range?, color: Color)

  type Store = map<Range, Cell>

  /** The links in `m` form exactly the subtree `t`, hanging below node `p`. */
  ghost predicate Linked(t: Tree, p: Range?, m: Store) {
    match t
    case Leaf => true
    case Node(l, n, k, r) =>
      n in m && m[n] == Cell(Root(l), Root(r), p, k) && Linked(l, n, m) && Linked(r, n, m)
  }

  /** The links in `m` form exactly the context `c`, with `hole` in its hole and `head` as root. */
  ghost predicate Held(c: Ctx, hole: Range?, head: Range?, m: Store) {
    match c
    case Top => head == hole
    case InLeft(up, n, k, r) =>
      n in m && m[n] == Cell(hole, Root(r), Above(up), k) && Linked(r, n, m) && Held(up, n, head, m)
    case InRight(up, l, n, k) =>
      n in m && m[n] == Cell(Root(l), hole, Above(up), k) && Linked(l, n, m) && Held(up, n, head, m)
  }

  ghost predicate Same(s: set<Range>, m: Store, w: Store) {
    forall n :: n in s && n in m ==> n in w && w[n] == m[n]
  }

  lemma LinkedFrame(t: Tree, p: Range?, m: Store, w: Store)
    requires Linked(t, p, m) && Same(Nodes(t), m, w)
    ensures Linked(t, p, w)
  {
    if t.Node? {
      LinkedFrame(t.left, t.elm, m, w);
      LinkedFrame(t.right, t.elm, m, w);
    }
  }

  lemma HeldFrame(c: Ctx, hole: Range?, head: Range?, m: Store, w: Store)
    requires Held(c, hole, head, m) && Same(CtxNodes(c), m, w)
    ensures Held(c, hole, head, w)
  {
    match c
    case Top =>
    case InLeft(up, n, _, r) => LinkedFrame(r, n, m, w); HeldFrame(up, n, head, m, w);
    case InRight(up, l, n, _) => LinkedFrame(l, n, m, w); HeldFrame(up, n, head, m, w);
  }

  /** Hanging a subtree below another node rewrites the parent field of its root only. */
  lemma Reparented(t: Tree, p: Range?, q: Range?, m: Store, w: Store)
    requires Apart(t) && Linked(t, p, m)
    requires t.Node? ==> w == m[t.elm := m[t.elm].(parent := q)]
    requires t.Leaf? ==> w == m
    ensures Linked(t, q, w)
  {
    if t.Node? {
      LinkedFrame(t.left, t.elm, m, w);
      LinkedFrame(t.right, t.elm, m, w);
    }
  }

  /** Filling a hole differently rewrites one child field of the node above it only. */
  ghost function Rehung(c: Ctx, hole: Range?, m: Store): Store
    requires c.Top? || c.elm in m
  {
    match c
    case Top => m
    case InLeft(_, n, _, _) => m[n := m[n].(left := hole)]
    case InRight(_, _, n, _) => m[n := m[n].(right := hole)]
  }

  lemma RehungHeld(c: Ctx, was: Range?, now: Range?, head: Range?, m: Store)
    requires ApartCtx(c) && Held(c, was, head, m)
    ensures Held(c, now, if c.Top? then now else head, Rehung(c, now, m))
  {
    var w := Rehung(c, now, m);
    match c
    case Top =>
    case InLeft(up, n, _, r) => LinkedFrame(r, n, m, w); HeldFrame(up, n, head, m, w);
    case InRight(up, l, n, _) => LinkedFrame(l, n, m, w); HeldFrame(up, n, head, m, w);
  }

  /** The links in `m`, with root `head`, form exactly the tree Plug(c, t), no node twice. */
  ghost predicate Fits(c: Ctx, t: Tree, head: Range?, m: Store) {
    && Apart(t) && ApartCtx(c) && Nodes(t) !! CtxNodes(c)
    && Linked(t, Above(c), m) && Held(c, Root(t), head, m)
  }

  lemma FitsUp(c: Ctx, t: Tree, head: Range?, m: Store)
    requires !c.Top?
    ensures Fits(c, t, head, m) <==> Fits(c.up, Fill(c, t), head, m)
  {
  }

  /** A new red leaf node `n`, linked from the node above the empty slot of `c`. */
  lemma LinkedIn(c: Ctx, n: Range, head: Range?, m: Store)
    requires Fits(c, Leaf, head, m) && n !in CtxNodes(c)
    ensures var w := m[n := Cell(null, null, Above(c), Red)];
      && (c.Top? || c.elm in w)
      && Fits(c, Node(Leaf, n, Red, Leaf), if c.Top? then n else head, Rehung(c, n, w))
  {
    var w := m[n := Cell(null, null, Above(c), Red)];
    HeldFrame(c, null, head, m, w);
    RehungHeld(c, null, n, head, w);
  }

  /** Unlinking a node with at most one child: its only subtree `u` goes up one level. */
  lemma DetachedFits(c: Ctx, t: Tree, u: Tree, head: Range?, m: Store)
    requires Fits(c, t, head, m) && t.Node?
    requires (t.left.Leaf? && u == t.right) || (t.right.Leaf? && u == t.left)
    ensures u.Node? ==> u.elm in m
    ensures var w := if u.Node? then m[u.elm := m[u.elm].(parent := Above(c))] else m;
      Linked(u, Above(c), w) && Held(c, t.elm, head, w)
    ensures ApartCtx(c) && t.elm !in CtxNodes(c) && Apart(u) && Nodes(u) !! CtxNodes(c)
  {
    assert Linked(u, t.elm, m);
    var w := if u.Node? then m[u.elm := m[u.elm].(parent := Above(c))] else m;
    Reparented(u, t.elm, Above(c), m, w);
    HeldFrame(c, t.elm, head, m, w);
  }

  /** The links after node `n` has taken over the fields of the root of `t`. */
  ghost function Supplanted(t: Tree, n: Range, m: Store): Store
    requires t.Node? && t.elm in m && t.left.Node? && t.left.elm in m && (t.right.Node? ==> t.right.elm in m)
  {
    var w := m[n := m[t.elm]];
    var v := w[t.left.elm := w[t.left.elm].(parent := n)];
    if t.right.Node? then v[t.right.elm := v[t.right.elm].(parent := n)] else v
  }

  lemma SupplantedFits(c: Ctx, t: Tree, n: Range, head: Range?, m: Store)
    requires Fits(c, t, head, m) && t.Node? && t.left.Node? && n !in Nodes(t) && n !in CtxNodes(c)
    ensures t.elm in m && t.left.elm in m && (t.right.Node? ==> t.right.elm in m)
    ensures var w := Supplanted(t, n, m);
      Linked(t.(elm := n), Above(c), w) && Held(c, t.elm, head, w)
    ensures ApartCtx(c) && t.elm !in CtxNodes(c) && Apart(t.(elm := n)) && Nodes(t.(elm := n)) !! CtxNodes(c)
  {
    assert Linked(t.left, t.elm, m) && Linked(t.right, t.elm, m);
    var w := m[n := m[t.elm]];
    var v := w[t.left.elm := w[t.left.elm].(parent := n)];
    var z := Supplanted(t, n, m);
    LinkedFrame(t.left, t.elm, m, w);
    LinkedFrame(t.right, t.elm, m, w);
    Reparented(t.left, t.elm, n, w, v);
    LinkedFrame(t.right, t.elm, w, v);
    Reparented(t.right, t.elm, n, v, z);
    LinkedFrame(t.left, n, v, z);
    HeldFrame(c, t.elm, head, m, z);
  }

  lemma ComposeNodes(i: Ctx, c: Ctx)
    ensures CtxNodes(Compose(i, c)) == CtxNodes(i) + CtxNodes(c)
  {
  }

  lemma SpliceApart(c: Ctx, t: Tree, i: Ctx, s: Tree, head: Range?, m: Store)
    requires t.Node? && s.Node? && Fits(Compose(i, InRight(c, t.left, t.elm, t.color)), s, head, m)
    ensures s.elm in m && s.elm !in CtxNodes(c) && s.elm !in Nodes(t.(right := Plug(i, s.right)))
  {
    ComposeNodes(i, InRight(c, t.left, t.elm, t.color));
    PlugNodes(i, s.right);
  }

  lemma ComposeAbove(i: Ctx, c: Ctx)
    ensures Above(Compose(i, c)) == if i.Top? then Above(c) else i.elm
  {
  }

  lemma {:induction false} FitsCompose(i: Ctx, c: Ctx, t: Tree, head: Range?, m: Store)
    ensures Fits(Compose(i, c), t, head, m) <==> Fits(c, Plug(i, t), head, m)
  {
    if !i.Top? {
      FitsUp(Compose(i, c), t, head, m);
      FitsCompose(i.up, c, Fill(i, t), head, m);
    }
  }

  lemma {:induction false} FitsPlug(c: Ctx, t: Tree, head: Range?, m: Store)
    ensures Fits(c, t, head, m) <==> Fits(Top, Plug(c, t), head, m)
  {
    if !c.Top? {
      FitsUp(c, t, head, m);
      FitsPlug(c.up, Fill(c, t), head, m);
    }
  }

  lemma {:induction false} LinkedKeys(t: Tree, p: Range?, m: Store)
    requires Linked(t, p, m)
    ensures Nodes(t) <= m.Keys
  {
    if t.Node? {
      LinkedKeys(t.left, t.elm, m);
      LinkedKeys(t.right, t.elm, m);
    }
  }

  lemma {:induction false} HeldHead(c: Ctx, hole: Range?, head: Range?, m: Store)
    requires Held(c, hole, head, m) && !c.Top?
    ensures head != null && head in CtxNodes(c)
  {
    if !c.up.Top? {
      HeldHead(c.up, c.elm, head, m);
    }
  }

  /** The focus is at the root exactly when its node is the tree's root pointer. */
  lemma FitsRoot(c: Ctx, t: Tree, head: Range?, m: Store)
    requires Fits(c, t, head, m)
    ensures c.Top? <==> head == Root(t)
  {
    if !c.Top? {
      HeldHead(c, Root(t), head, m);
    }
  }

  lemma {:induction false} PlugNodes(c: Ctx, t: Tree)
    ensures Nodes(Plug(c, t)) == CtxNodes(c) + Nodes(t)
  {
    if !c.Top? {
      PlugNodes(c.up, Fill(c, t));
    }
  }

  /** Every node of a tree has a place in it. */
  lemma Locate(t: Tree, n: Range) returns (c: Ctx, s: Tree)
    requires n in Nodes(t)
    ensures Plug(c, s) == t && s.Node? && s.elm == n
  {
    if n == t.elm {
      c, s := Top, t;
    } else if n in Nodes(t.left) {
      c, s := Locate(t.left, n);
      PlugCompose(c, InLeft(Top, t.elm, t.color, t.right), s);
      c := Compose(c, InLeft(Top, t.elm, t.color, t.right));
    } else {
      c, s := Locate(t.right, n);
      PlugCompose(c, InRight(Top, t.left, t.elm, t.color), s);
      c := Compose(c, InRight(Top, t.left, t.elm, t.color));
    }
  }

  lemma {:induction false} PlugCompose(i: Ctx, c: Ctx, t: Tree)
    ensures Plug(Compose(i, c), t) == Plug(c, Plug(i, t))
  {
    if !i.Top? {
      PlugCompose(i.up, c, Fill(i, t));
    }
  }

  // The rotations of tree.h as functions on shapes; colours travel with their nodes.

  ghost function RotatedLeft(t: Tree): (r: Tree)
    requires t.Node? && t.right.Node?
  {
    Node(Node(t.left, t.elm, t.color, t.right.left), t.right.elm, t.right.color, t.right.right)
  }

  ghost function RotatedRight(t: Tree): (r: Tree)
    requires t.Node? && t.left.Node?
  {
    Node(t.left.left, t.left.elm, t.left.color, Node(t.left.right, t.elm, t.color, t.right))
  }

  /** Setting the colour of node `n`. */
  ghost function Painted(t: Tree, n: Range, k: Color): (r: Tree)
    ensures Root(r) == Root(t) && Nodes(r) == Nodes(t)
  {
    match t
    case Leaf => Leaf
    case Node(l, x, kx, r) =>
      if x == n then Node(l, x, k, r)
      else if n in Nodes(l) then Node(Painted(l, n, k), x, kx, r)
      else Node(l, x, kx, Painted(r, n, k))
  }

  lemma PaintedLinked(t: Tree, n: Range, k: Color, p: Range?, m: Store)
    requires Apart(t) && Linked(t, p, m) && n in m
    ensures Apart(Painted(t, n, k)) && Linked(Painted(t, n, k), p, m[n := m[n].(color := k)])
  {
    var w := m[n := m[n].(color := k)];
    if t.Node? {
      PaintedLinked(t.left, n, k, t.elm, m);
      PaintedLinked(t.right, n, k, t.elm, m);
      if n == t.elm || n !in Nodes(t.left) {
        LinkedFrame(t.left, t.elm, m, w);
      }
      if n == t.elm || n in Nodes(t.left) {
        LinkedFrame(t.right, t.elm, m, w);
      }
    }
  }

  lemma PaintedFits(c: Ctx, t: Tree, n: Range, k: Color, head: Range?, m: Store)
    requires Fits(c, t, head, m) && n in Nodes(t)
    ensures n in m && Fits(c, Painted(t, n, k), head, m[n := m[n].(color := k)])
  {
    LinkedKeys(t, Above(c), m);
    PaintedLinked(t, n, k, Above(c), m);
    HeldFrame(c, Root(t), head, m, m[n := m[n].(color := k)]);
  }

  lemma RotatedLeftApart(t: Tree)
    requires Apart(t) && t.Node? && t.right.Node?
    ensures Apart(RotatedLeft(t)) && Nodes(RotatedLeft(t)) == Nodes(t)
  {
  }

  /** The links a left rotation of `t` writes inside the subtree. */
  ghost function TurnedLeft(x: Range, y: Range, b: Range?, p: Range?, m: Store): Store
    requires x in m && y in m && (b != null ==> b in m)
  {
    (if b == null then m else m[b := m[b].(parent := x)])
      [x := m[x].(right := b, parent := y)]
      [y := m[y].(left := x, parent := p)]
  }

  /** The nodes a left rotation reads are present and distinct. */
  lemma RotateLeftReady(t: Tree, p: Range?, m: Store)
    requires Apart(t) && t.Node? && t.right.Node? && Linked(t, p, m)
    ensures var x, y, b := t.elm, t.right.elm, t.right.left;
      && x in m && m[x].right == y && m[x].parent == p
      && y in m && m[y].left == Root(b) && y != x
      && (b.Node? ==> b.elm in m && b.elm != x && b.elm != y)
  {
    assert Apart(t.right) && Linked(t.right, t.elm, m) && Linked(t.right.left, t.right.elm, m);
  }

  lemma TurnedLeftLinked(t: Tree, p: Range?, m: Store)
    requires Apart(t) && t.Node? && t.right.Node? && Linked(t, p, m)
    requires t.right.elm in m && (t.right.left.Node? ==> t.right.left.elm in m)
    ensures var w := TurnedLeft(t.elm, t.right.elm, Root(t.right.left), p, m);
      Linked(RotatedLeft(t), p, w) && forall n :: n in m && n !in Nodes(t) ==> w[n] == m[n]
  {
    var w := TurnedLeft(t.elm, t.right.elm, Root(t.right.left), p, m);
    var a, b, e := t.left, t.right.left, t.right.right;
    assert Apart(t.right) && Linked(t.right, t.elm, m);
    LinkedFrame(a, t.elm, m, w);
    LinkedFrame(e, t.right.elm, m, w);
    var v := if b.Node? then m[b.elm := m[b.elm].(parent := t.elm)] else m;
    Reparented(b, t.right.elm, t.elm, m, v);
    LinkedFrame(b, t.elm, v, w);
    assert Linked(Node(a, t.elm, t.color, b), t.right.elm, w);
  }

  lemma RotatedLeftFits(c: Ctx, t: Tree, head: Range?, m: Store)
    requires Fits(c, t, head, m) && t.Node? && t.right.Node?
    requires t.right.elm in m && (t.right.left.Node? ==> t.right.left.elm in m)
    ensures var w := TurnedLeft(t.elm, t.right.elm, Root(t.right.left), Above(c), m);
      && Linked(RotatedLeft(t), Above(c), w) && Held(c, t.elm, head, w)
      && w.Keys == m.Keys && w[t.right.elm].parent == Above(c)
    ensures Apart(RotatedLeft(t)) && Nodes(RotatedLeft(t)) !! CtxNodes(c)
  {
    var w := TurnedLeft(t.elm, t.right.elm, Root(t.right.left), Above(c), m);
    RotatedLeftApart(t);
    TurnedLeftLinked(t, Above(c), m);
    HeldFrame(c, t.elm, head, m, w);
  }

  lemma RotatedRightApart(t: Tree)
    requires Apart(t) && t.Node? && t.left.Node?
    ensures Apart(RotatedRight(t)) && Nodes(RotatedRight(t)) == Nodes(t)
  {
  }

  /** The links a right rotation of `t` writes inside the subtree. */
  ghost function TurnedRight(x: Range, y: Range, b: Range?, p: Range?, m: Store): Store
    requires x in m && y in m && (b != null ==> b in m)
  {
    (if b == null then m else m[b := m[b].(parent := x)])
      [x := m[x].(left := b, parent := y)]
      [y := m[y].(right := x, parent := p)]
  }

  /** The nodes a right rotation reads are present and distinct. */
  lemma RotateRightReady(t: Tree, p: Range?, m: Store)
    requires Apart(t) && t.Node? && t.left.Node? && Linked(t, p, m)
    ensures var x, y, b := t.elm, t.left.elm, t.left.right;
      && x in m && m[x].left == y && m[x].parent == p
      && y in m && m[y].right == Root(b) && y != x
      && (b.Node? ==> b.elm in m && b.elm != x && b.elm != y)
  {
    assert Apart(t.left) && Linked(t.left, t.elm, m) && Linked(t.left.right, t.left.elm, m);
  }

  lemma TurnedRightLinked(t: Tree, p: Range?, m: Store)
    requires Apart(t) && t.Node? && t.left.Node? && Linked(t, p, m)
    requires t.left.elm in m && (t.left.right.Node? ==> t.left.right.elm in m)
    ensures var w := TurnedRight(t.elm, t.left.elm, Root(t.left.right), p, m);
      Linked(RotatedRight(t), p, w) && forall n :: n in m && n !in Nodes(t) ==> w[n] == m[n]
  {
    var w := TurnedRight(t.elm, t.left.elm, Root(t.left.right), p, m);
    var a, b, e := t.right, t.left.right, t.left.left;
    assert Apart(t.left) && Linked(t.left, t.elm, m);
    LinkedFrame(a, t.elm, m, w);
    LinkedFrame(e, t.left.elm, m, w);
    var v := if b.Node? then m[b.elm := m[b.elm].(parent := t.elm)] else m;
    Reparented(b, t.left.elm, t.elm, m, v);
    LinkedFrame(b, t.elm, v, w);
    assert Linked(Node(b, t.elm, t.color, a), t.left.elm, w);
  }

  lemma RotatedRightFits(c: Ctx, t: Tree, head: Range?, m: Store)
    requires Fits(c, t, head, m) && t.Node? && t.left.Node?
    requires t.left.elm in m && (t.left.right.Node? ==> t.left.right.elm in m)
    ensures var w := TurnedRight(t.elm, t.left.elm, Root(t.left.right), Above(c), m);
      && Linked(RotatedRight(t), Above(c), w) && Held(c, t.elm, head, w)
      && w.Keys == m.Keys && w[t.left.elm].parent == Above(c)
    ensures Apart(RotatedRight(t)) && Nodes(RotatedRight(t)) !! CtxNodes(c)
  {
    var w := TurnedRight(t.elm, t.left.elm, Root(t.left.right), Above(c), m);
    RotatedRightApart(t);
    TurnedRightLinked(t, Above(c), m);
    HeldFrame(c, t.elm, head, m, w);
  }
}
