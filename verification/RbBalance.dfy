/**
 What it means for a shape to be a red-black tree in search order, and why each
 repair case of `RB_INSERT_COLOR` and `RB_REMOVE_COLOR` restores it.
 */
module RbBalance {
  import opened RbShape

  predicate IsRed(t: Tree) {
    t.Node? && t.color.Red?
  }

  function BlackHeight(t: Tree): nat {
    if t.Leaf? then 0 else BlackHeight(t.left) + if t.color.Black? then 1 else 0
  }

  /** No red node under a red node, and equal black heights, everywhere in `t`. */
  ghost predicate Rb(t: Tree) {
    match t
    case Leaf => true
    case Node(l, _, k, r) =>
      && Rb(l) && Rb(r) && BlackHeight(l) == BlackHeight(r)
      && (k.Red? ==> !IsRed(l) && !IsRed(r))
  }

  ghost predicate Balanced(t: Tree) {
    Rb(t) && !IsRed(t)
  }

  /** Filling the hole of `c` with a black-rooted tree of black height `h` gives a red-black tree. */
  ghost predicate CtxRb(c: Ctx, h: nat) {
    match c
    case Top => true
    case InLeft(up, _, k, s) => SideRb(up, k, s, h) && CtxRb(up, if k.Black? then h + 1 else h)
    case InRight(up, s, _, k) => SideRb(up, k, s, h) && CtxRb(up, if k.Black? then h + 1 else h)
  }

  ghost predicate SideRb(up: Ctx, k: Color, s: Tree, h: nat) {
    && Rb(s) && BlackHeight(s) == h
    && (k.Red? ==> !IsRed(s) && !up.Top? && up.color.Black?)
  }

  /** The subtree beside the hole. */
  function Side(c: Ctx): Tree
    requires !c.Top?
  {
    if c.InLeft? then c.right else c.left
  }

  lemma {:induction false} PlugBalanced(c: Ctx, t: Tree)
    ensures Balanced(Plug(c, t)) <==>
      Rb(t) && CtxRb(c, BlackHeight(t)) && (IsRed(t) ==> !c.Top? && c.color.Black?)
  {
    if !c.Top? {
      PlugBalanced(c.up, Fill(c, t));
    }
  }

  // ---- in-order contents ----

  ghost function Inorder(t: Tree): seq<Range> {
    match t
    case Leaf => []
    case Node(l, n, _, r) => Inorder(l) + [n] + Inorder(r)
  }

  ghost function Before(c: Ctx): seq<Range> {
    match c
    case Top => []
    case InLeft(up, _, _, _) => Before(up)
    case InRight(up, l, n, _) => Before(up) + Inorder(l) + [n]
  }

  ghost function After(c: Ctx): seq<Range> {
    match c
    case Top => []
    case InLeft(up, n, _, r) => [n] + Inorder(r) + After(up)
    case InRight(up, _, _, _) => After(up)
  }

  lemma Regroup<T>(a: seq<T>, b: seq<T>, n: seq<T>, d: seq<T>, e: seq<T>)
    ensures a + (b + n + d) + e == a + b + (n + d + e)
    ensures a + (b + n + d) + e == (a + b + n) + d + e
  {
  }

  lemma {:induction false} PlugInorder(c: Ctx, t: Tree)
    ensures Inorder(Plug(c, t)) == Before(c) + Inorder(t) + After(c)
  {
    match c
    case Top =>
    case InLeft(up, n, _, r) =>
      PlugInorder(up, Fill(c, t));
      Regroup(Before(up), Inorder(t), [n], Inorder(r), After(up));
    case InRight(up, l, n, _) =>
      PlugInorder(up, Fill(c, t));
      Regroup(Before(up), Inorder(l), [n], Inorder(t), After(up));
  }

  ghost function Members(s: seq<Range>): set<Range> {
    set n | n in s
  }

  lemma InorderNodes(t: Tree)
    ensures Members(Inorder(t)) == Nodes(t)
  {
  }

  lemma {:induction false} RotatedLeftInorder(t: Tree)
    requires t.Node? && t.right.Node?
    ensures Inorder(RotatedLeft(t)) == Inorder(t)
  {
  }

  lemma {:induction false} RotatedRightInorder(t: Tree)
    requires t.Node? && t.left.Node?
    ensures Inorder(RotatedRight(t)) == Inorder(t)
  {
  }

  lemma PaintedInorder(t: Tree, n: Range, k: Color)
    ensures Inorder(Painted(t, n, k)) == Inorder(t)
  {
  }

  /** Rewriting the focus without changing its order keeps the whole order. */
  lemma SameInorder(c: Ctx, t: Tree, s: Tree)
    requires Inorder(t) == Inorder(s)
    ensures Inorder(Plug(c, t)) == Inorder(Plug(c, s))
  {
    PlugInorder(c, t);
    PlugInorder(c, s);
  }

  // ---- insertion ----

  /** The loop invariant of RB_INSERT_COLOR: only the red node `t` may sit under a red parent. */
  ghost predicate Rising(c: Ctx, t: Tree) {
    IsRed(t) && Rb(t) && CtxRb(c, BlackHeight(t))
  }

  /** The subtree at the grandparent once the red uncle passes its blackness down. */
  ghost function Recolored(g: Tree): Tree
    requires g.Node? && g.left.Node? && g.right.Node?
  {
    g.(left := g.left.(color := Black), color := Red, right := g.right.(color := Black))
  }

  lemma RecoloredPaint(g: Tree)
    requires Apart(g) && g.Node? && g.left.Node? && g.right.Node?
    ensures Painted(Painted(Painted(g, g.right.elm, Black), g.left.elm, Black), g.elm, Red) == Recolored(g)
    ensures Painted(Painted(Painted(g, g.left.elm, Black), g.right.elm, Black), g.elm, Red) == Recolored(g)
  {
  }

  lemma BlackRedPaint(g: Tree)
    requires Apart(g) && g.Node?
    ensures g.left.Node? ==> Painted(Painted(g, g.left.elm, Black), g.elm, Red) == g.(left := g.left.(color := Black), color := Red)
    ensures g.right.Node? ==> Painted(Painted(g, g.right.elm, Black), g.elm, Red) == g.(right := g.right.(color := Black), color := Red)
  {
  }

  lemma RecoloredInorder(g: Tree)
    requires g.Node? && g.left.Node? && g.right.Node?
    ensures Inorder(Recolored(g)) == Inorder(g)
  {
  }

  /** What a red parent under the invariant says about the two levels above the focus. */
  lemma RedParent(c: Ctx, t: Tree)
    requires Rising(c, t) && !c.Top? && c.color.Red?
    ensures !c.up.Top? && c.up.color.Black?
    ensures var h := BlackHeight(t); var (s, u) := (Side(c), Side(c.up));
      && Rb(s) && !IsRed(s) && BlackHeight(s) == h && Rb(u) && BlackHeight(u) == h
      && CtxRb(c.up, h) && CtxRb(c.up.up, h + 1)
  {
    assert CtxRb(c.up, BlackHeight(t));
  }

  lemma RecoloredRising(c: Ctx, t: Tree)
    requires Rising(c, t) && !c.Top? && c.color.Red? && !c.up.Top? && IsRed(Side(c.up))
    ensures Rising(c.up.up, Recolored(Fill(c.up, Fill(c, t))))
  {
    RedParent(c, t);
    var p, u := Fill(c, t), Side(c.up);
    assert Rb(p.(color := Black)) && Rb(u.(color := Black));
  }

  // An inner grandchild is first rotated to the outside; the old parent becomes the focus.

  lemma StraightenedLeft(c: Ctx, t: Tree)
    requires Rising(c, t) && c.InRight? && c.color.Red? && c.up.InLeft?
    ensures var u, s := InLeft(c.up, t.elm, Red, t.right), Node(c.left, c.elm, Red, t.left);
      Rising(u, s) && Fill(u, s) == RotatedLeft(Fill(c, t))
  {
  }

  lemma StraightenedRight(c: Ctx, t: Tree)
    requires Rising(c, t) && c.InLeft? && c.color.Red? && c.up.InRight?
    ensures var u, s := InRight(c.up, t.left, t.elm, Red), Node(t.right, c.elm, Red, c.right);
      Rising(u, s) && Fill(u, s) == RotatedRight(Fill(c, t))
  {
  }

  // An outer grandchild with a black uncle: the parent takes the grandparent's place, black.

  lemma SettledLeft(c: Ctx, t: Tree)
    requires Rising(c, t) && c.InLeft? && c.color.Red? && c.up.InLeft? && !IsRed(c.up.right)
    ensures Rising(InLeft(c.up.up, c.elm, Black, Node(c.right, c.up.elm, Red, c.up.right)), t)
  {
    RedParent(c, t);
    assert Rb(Node(c.right, c.up.elm, Red, c.up.right));
  }

  lemma SettledRight(c: Ctx, t: Tree)
    requires Rising(c, t) && c.InRight? && c.color.Red? && c.up.InRight? && !IsRed(c.up.left)
    ensures Rising(InRight(c.up.up, Node(c.up.left, c.up.elm, Red, c.left), c.elm, Black), t)
  {
    RedParent(c, t);
    assert Rb(Node(c.up.left, c.up.elm, Red, c.left));
  }

  lemma SettledLeftInorder(c: Ctx, t: Tree)
    requires c.InLeft? && c.up.InLeft?
    ensures Inorder(Plug(InLeft(c.up.up, c.elm, Black, Node(c.right, c.up.elm, Red, c.up.right)), t))
         == Inorder(Plug(c, t))
  {
    var g := Fill(c.up, Fill(c, t));
    var r := RotatedRight(g.(left := g.left.(color := Black), color := Red));
    RotatedRightInorder(g);
    RotatedRightInorder(g.(left := g.left.(color := Black), color := Red));
    SameInorder(c.up.up, g, r);
  }

  lemma SettledRightInorder(c: Ctx, t: Tree)
    requires c.InRight? && c.up.InRight?
    ensures Inorder(Plug(InRight(c.up.up, Node(c.up.left, c.up.elm, Red, c.left), c.elm, Black), t))
         == Inorder(Plug(c, t))
  {
    var g := Fill(c.up, Fill(c, t));
    var r := RotatedLeft(g.(right := g.right.(color := Black), color := Red));
    RotatedLeftInorder(g);
    RotatedLeftInorder(g.(right := g.right.(color := Black), color := Red));
    SameInorder(c.up.up, g, r);
  }

  ghost function Depth(c: Ctx): nat {
    if c.Top? then 0 else 1 + Depth(c.up)
  }

  /** When the loop of RB_INSERT_COLOR stops, blackening the root finishes the repair. */
  lemma RisingDone(c: Ctx, t: Tree)
    requires Rising(c, t) && (c.Top? || c.color.Black?)
    ensures var w := Plug(c, t); w.Node? && Balanced(Painted(w, w.elm, Black))
  {
    PlugInorder(c, t);
    PlugBalanced(c, t);
  }

  // ---- search order ----

  predicate Covers(r: Range, addr: nat) {
    r.base <= addr <= r.end
  }

  ghost predicate Overlap(a: Range, b: Range) {
    exists x :: Covers(a, x) && Covers(b, x)
  }

  /** `e` overlaps none of the ranges. */
  ghost predicate Clear(s: seq<Range>, e: Range) {
    forall n :: n in s ==> !Overlap(e, n)
  }

  ghost predicate Uncovered(s: seq<Range>, addr: nat) {
    forall n :: n in s ==> !Covers(n, addr)
  }

  /** `mmio_rb_range_compare`: negative, zero or positive. */
  function Compare(a: Range, b: Range): int {
    if a.end < b.base then -1 else if a.base > b.end then 1 else 0
  }

  /** On non-empty ranges the comparator answers zero exactly for ranges that share an address. */
  lemma CompareOverlap(a: Range, b: Range)
    requires a.base <= a.end && b.base <= b.end
    ensures Compare(a, b) == 0 <==> Overlap(a, b)
    ensures Compare(a, b) < 0 <==> forall x, y :: Covers(a, x) && Covers(b, y) ==> x < y
    ensures Compare(a, b) > 0 <==> forall x, y :: Covers(a, x) && Covers(b, y) ==> x > y
  {
    var x := if a.base <= b.base then b.base else a.base;
    assert Covers(a, a.base) && Covers(a, a.end) && Covers(b, b.base) && Covers(b, b.end);
    if Compare(a, b) == 0 {
      assert Covers(a, x) && Covers(b, x);
    }
  }

  /** Every range is non-empty and lies entirely below all later ones. */
  ghost predicate Ordered(s: seq<Range>) {
    && (forall i :: 0 <= i < |s| ==> s[i].base <= s[i].end)
    && (forall i, j :: 0 <= i < j < |s| ==> s[i].end < s[j].base)
  }

  ghost predicate Below(s: seq<Range>, e: Range) {
    forall n :: n in s ==> n.end < e.base
  }

  ghost predicate Beyond(s: seq<Range>, e: Range) {
    forall n :: n in s ==> e.end < n.base
  }

  lemma OrderedAt(s: seq<Range>, n: Range)
    requires Ordered(s) && n in s
    ensures n.base <= n.end
  {
  }

  lemma OrderedAround(a: seq<Range>, n: Range, b: seq<Range>)
    requires Ordered(a + [n] + b)
    ensures n.base <= n.end && Below(a, n) && Beyond(b, n)
    ensures Ordered(a + b)
  {
    var s := a + [n] + b;
    assert s[|a|] == n;
    forall m | m in a ensures m.end < n.base {
      var i :| 0 <= i < |a| && a[i] == m;
      assert s[i] == m;
    }
    forall m | m in b ensures n.end < m.base {
      var i :| 0 <= i < |b| && b[i] == m;
      assert s[|a| + 1 + i] == m;
    }
    assert forall i :: 0 <= i < |a + b| ==> (a + b)[i] == s[if i < |a| then i else i + 1];
  }

  lemma OrderedWith(a: seq<Range>, n: Range, b: seq<Range>)
    requires Ordered(a + b) && n.base <= n.end && Below(a, n) && Beyond(b, n)
    ensures Ordered(a + [n] + b)
  {
    var s := a + [n] + b;
    assert forall i :: 0 <= i < |s| && i != |a| ==> s[i] == (a + b)[if i < |a| then i else i - 1];
    assert forall i :: 0 <= i < |a| ==> s[i] in a;
    assert forall i :: |a| < i < |s| ==> s[i] in b;
  }

  /** Searching left or right of a node keeps the sought range between the two sides of the hole. */
  lemma {:induction false} Narrow(c: Ctx, t: Tree, e: Range)
    requires t.Node? && Ordered(Inorder(Plug(c, t))) && Below(Before(c), e) && Beyond(After(c), e)
    requires e.base <= e.end
    ensures e.end < t.elm.base ==> Beyond(After(InLeft(c, t.elm, t.color, t.right)), e)
    ensures e.base > t.elm.end ==> Below(Before(InRight(c, t.left, t.elm, t.color)), e)
  {
    var a, b := NodeOrder(c, t);
    OrderedAround(a, t.elm, b);
    assert forall n :: n in Inorder(t.right) ==> n in b;
    assert forall n :: n in Inorder(t.left) ==> n in a;
  }

  /** At the empty slot no registered range overlaps the sought one. */
  lemma {:induction false} SlotFree(c: Ctx, e: Range)
    requires Below(Before(c), e) && Beyond(After(c), e)
    ensures Clear(Inorder(Plug(c, Leaf)), e)
  {
    PlugInorder(c, Leaf);
    forall n | n in Inorder(Plug(c, Leaf)) ensures !Overlap(e, n) {
      assert n in Before(c) || n in After(c);
    }
  }

  /** Filling the empty slot of a balanced tree with a red node starts the repair loop. */
  lemma SlotRising(c: Ctx, n: Range)
    requires Balanced(Plug(c, Leaf))
    ensures Rising(c, Node(Leaf, n, Red, Leaf))
  {
    PlugBalanced(c, Leaf);
  }

  lemma {:induction false} SlotFilled(c: Ctx, n: Range)
    requires Ordered(Inorder(Plug(c, Leaf))) && Below(Before(c), n) && Beyond(After(c), n) && n.base <= n.end
    ensures var w := Plug(c, Node(Leaf, n, Red, Leaf));
      && Inorder(w) == Before(c) + [n] + After(c) && Ordered(Inorder(w))
      && Nodes(w) == Nodes(Plug(c, Leaf)) + {n}
  {
    PlugInorder(c, Leaf);
    assert Inorder(Plug(c, Leaf)) == Before(c) + After(c);
    OrderedWith(Before(c), n, After(c));
    PlugInorder(c, Node(Leaf, n, Red, Leaf));
    PlugNodes(c, Leaf);
    PlugNodes(c, Node(Leaf, n, Red, Leaf));
  }

  // ---- removal ----

  /** Balanced except that the root of `t` may be red over a red child. */
  ghost predicate InnerRb(t: Tree) {
    t.Leaf? || (Rb(t.left) && Rb(t.right) && BlackHeight(t.left) == BlackHeight(t.right))
  }

  /** The loop invariant of RB_REMOVE_COLOR: `t` is one black node short. */
  ghost predicate Short(c: Ctx, t: Tree) {
    InnerRb(t) && CtxRb(c, BlackHeight(t) + 1)
  }

  /** Bound on the rounds left: none once the focus is red, else the distance to the root. */
  ghost function Rounds(c: Ctx, t: Tree): nat {
    if IsRed(t) then 0 else 1 + Depth(c)
  }

  /** The sibling of a short black subtree exists: the C code may dereference it. */
  lemma ShortSide(c: Ctx, t: Tree)
    requires Short(c, t) && !c.Top? && !IsRed(t)
    ensures var h, s := BlackHeight(t), Side(c);
      && Rb(t) && s.Node? && Rb(s) && BlackHeight(s) == h + 1
      && CtxRb(c.up, if c.color.Black? then h + 2 else h + 1)
      && (c.color.Red? ==> s.color.Black? && !c.up.Top? && c.up.color.Black?)
      && (s.color.Red? ==> s.left.Node? && s.left.color.Black? && s.right.Node? && s.right.color.Black?)
  {
  }

  // A red sibling is lifted above the parent; the focus keeps a black sibling.

  ghost function LiftedLeft(c: Ctx): (u: Ctx)
    requires c.InLeft? && c.right.Node?
  {
    var s := c.right;
    InLeft(InLeft(c.up, s.elm, Black, s.right), c.elm, Red, s.left)
  }

  ghost function LiftedRight(c: Ctx): (u: Ctx)
    requires c.InRight? && c.left.Node?
  {
    var s := c.left;
    InRight(InRight(c.up, s.left, s.elm, Black), s.right, c.elm, Red)
  }

  lemma LiftedShort(c: Ctx, t: Tree)
    requires Short(c, t) && !c.Top? && !IsRed(t) && IsRed(Side(c))
    ensures var u := if c.InLeft? then LiftedLeft(c) else LiftedRight(c);
      Short(u, t) && Side(u).Node? && Side(u).color.Black?
  {
  }

  // Both nephews black: the sibling turns red and the shortage moves up.

  lemma PassedUp(c: Ctx, t: Tree)
    requires Short(c, t) && !c.Top? && !IsRed(t)
    requires var s := Side(c); s.Node? && s.color.Black? && !IsRed(s.left) && !IsRed(s.right)
    ensures c.InLeft? ==> Short(c.up, Node(t, c.elm, c.color, c.right.(color := Red)))
    ensures c.InRight? ==> Short(c.up, Node(c.left.(color := Red), c.elm, c.color, t))
  {
  }

  // A red inner nephew is rotated to the outside.

  ghost function NephewOutLeft(s: Tree): Tree
    requires s.Node? && s.left.Node?
  {
    Node(s.left.left, s.left.elm, Black, Node(s.left.right, s.elm, Red, s.right))
  }

  ghost function NephewOutRight(s: Tree): Tree
    requires s.Node? && s.right.Node?
  {
    Node(Node(s.left, s.elm, Red, s.right.left), s.right.elm, Black, s.right.right)
  }

  lemma NephewOutLeftShort(c: Ctx, t: Tree)
    requires Short(c, t) && c.InLeft? && !IsRed(t)
    requires c.right.Node? && c.right.color.Black? && IsRed(c.right.left) && !IsRed(c.right.right)
    ensures Short(c.(right := NephewOutLeft(c.right)), t)
  {
    ShortSide(c, t);
    assert Rb(NephewOutLeft(c.right).right);
  }

  lemma NephewOutRightShort(c: Ctx, t: Tree)
    requires Short(c, t) && c.InRight? && !IsRed(t)
    requires c.left.Node? && c.left.color.Black? && IsRed(c.left.right) && !IsRed(c.left.left)
    ensures Short(c.(left := NephewOutRight(c.left)), t)
  {
    ShortSide(c, t);
    assert Rb(NephewOutRight(c.left).left);
  }

  // A red outer nephew: the sibling takes the parent's place and colour, and nothing is short.

  ghost function ClosedLeft(c: Ctx, t: Tree): Tree
    requires c.InLeft? && c.right.Node? && c.right.right.Node?
  {
    Node(Node(t, c.elm, Black, c.right.left), c.right.elm, c.color, c.right.right.(color := Black))
  }

  ghost function ClosedRight(c: Ctx, t: Tree): Tree
    requires c.InRight? && c.left.Node? && c.left.left.Node?
  {
    Node(c.left.left.(color := Black), c.left.elm, c.color, Node(c.left.right, c.elm, Black, t))
  }

  lemma ClosedBalanced(c: Ctx, t: Tree)
    requires Short(c, t) && !c.Top? && !IsRed(t) && Side(c).Node? && Side(c).color.Black?
    ensures c.InLeft? && IsRed(c.right.right) ==> Balanced(Plug(c.up, ClosedLeft(c, t)))
    ensures c.InRight? && IsRed(c.left.left) ==> Balanced(Plug(c.up, ClosedRight(c, t)))
  {
    ShortSide(c, t);
    if c.InLeft? && IsRed(c.right.right) {
      var w := ClosedLeft(c, t);
      assert Rb(w.left) && Rb(w.right);
      PlugBalanced(c.up, w);
    }
    if c.InRight? && IsRed(c.left.left) {
      var w := ClosedRight(c, t);
      assert Rb(w.left) && Rb(w.right);
      PlugBalanced(c.up, w);
    }
  }

  /** When the loop of RB_REMOVE_COLOR stops, blackening the focus finishes the repair. */
  lemma ShortDone(c: Ctx, t: Tree)
    requires Short(c, t) && (c.Top? || IsRed(t))
    ensures t.Node? ==> Balanced(Plug(c, t.(color := Black)))
    ensures t.Leaf? ==> Balanced(Plug(c, t))
  {
    if t.Node? {
      PlugBalanced(c, t.(color := Black));
    }
  }

  // The repair cases as the rotations and paints the C code performs; none changes the order.

  lemma LiftedMoves(c: Ctx, t: Tree)
    requires !c.Top? && Side(c).Node?
    ensures c.InLeft? ==> var f, u := Fill(c, t), LiftedLeft(c);
      Fill(u.up, Fill(u, t)) == RotatedLeft(f.(right := f.right.(color := Black), color := Red))
    ensures c.InRight? ==> var f, u := Fill(c, t), LiftedRight(c);
      Fill(u.up, Fill(u, t)) == RotatedRight(f.(left := f.left.(color := Black), color := Red))
    ensures var u := if c.InLeft? then LiftedLeft(c) else LiftedRight(c);
      Inorder(Plug(u, t)) == Inorder(Plug(c, t))
  {
    var f := Fill(c, t);
    if c.InLeft? {
      var g := f.(right := f.right.(color := Black), color := Red);
      RotatedLeftInorder(g);
      SameInorder(c.up, f, RotatedLeft(g));
    } else {
      var g := f.(left := f.left.(color := Black), color := Red);
      RotatedRightInorder(g);
      SameInorder(c.up, f, RotatedRight(g));
    }
  }

  lemma SidePaint(c: Ctx, t: Tree)
    requires !c.Top? && Side(c).Node? && Apart(Fill(c, t))
    ensures var f := Fill(c, t); var p := Painted(f, Side(c).elm, Red);
      && (c.InLeft? ==> p == f.(right := c.right.(color := Red)))
      && (c.InRight? ==> p == f.(left := c.left.(color := Red)))
      && Inorder(Plug(c.up, p)) == Inorder(Plug(c, t))
  {
    var f := Fill(c, t);
    PaintedInorder(f, Side(c).elm, Red);
    SameInorder(c.up, f, Painted(f, Side(c).elm, Red));
  }

  lemma NephewOutMoves(s: Tree)
    requires s.Node?
    ensures s.left.Node? ==> NephewOutLeft(s) == RotatedRight(s.(left := s.left.(color := Black), color := Red))
    ensures s.left.Node? ==> Inorder(NephewOutLeft(s)) == Inorder(s)
    ensures s.right.Node? ==> NephewOutRight(s) == RotatedLeft(s.(right := s.right.(color := Black), color := Red))
    ensures s.right.Node? ==> Inorder(NephewOutRight(s)) == Inorder(s)
  {
    if s.left.Node? {
      RotatedRightInorder(s);
    }
    if s.right.Node? {
      RotatedLeftInorder(s);
    }
  }

  lemma ClosedMoves(c: Ctx, t: Tree)
    requires !c.Top? && Side(c).Node? && Apart(Fill(c, t))
    ensures c.InLeft? && c.right.right.Node? ==>
      var f := Painted(Painted(Painted(Fill(c, t), c.right.elm, c.color), c.elm, Black), c.right.right.elm, Black);
      f.right.Node? && ClosedLeft(c, t) == RotatedLeft(f) && Inorder(ClosedLeft(c, t)) == Inorder(Fill(c, t))
    ensures c.InRight? && c.left.left.Node? ==>
      var f := Painted(Painted(Painted(Fill(c, t), c.left.elm, c.color), c.elm, Black), c.left.left.elm, Black);
      f.left.Node? && ClosedRight(c, t) == RotatedRight(f) && Inorder(ClosedRight(c, t)) == Inorder(Fill(c, t))
  {
    var f := Fill(c, t);
    if c.InLeft? && c.right.right.Node? {
      RotatedLeftInorder(f);
      var s := c.right;
      assert Apart(s);
      assert Painted(s.(color := c.color), s.right.elm, Black) == s.(color := c.color, right := s.right.(color := Black));
      assert Painted(Painted(f, s.elm, c.color), c.elm, Black) == f.(right := s.(color := c.color), color := Black);
    }
    if c.InRight? && c.left.left.Node? {
      RotatedRightInorder(f);
      var s := c.left;
      assert Apart(s);
      assert Painted(s.(color := c.color), s.left.elm, Black) == s.(color := c.color, left := s.left.(color := Black));
      assert Painted(Painted(f, s.elm, c.color), c.elm, Black) == f.(left := s.(color := c.color), color := Black);
    }
  }

  // ---- taking a node out ----

  /** Unlinking a red node keeps the balance; unlinking a black one leaves its subtree short. */
  lemma {:induction false} OnlyChild(c: Ctx, t: Tree, u: Tree)
    requires Balanced(Plug(c, t)) && t.Node?
    requires (t.left.Leaf? && u == t.right) || (t.right.Leaf? && u == t.left)
    ensures t.color.Black? ==> Short(c, u)
    ensures t.color.Red? ==> Balanced(Plug(c, u))
  {
    PlugBalanced(c, t);
    PlugBalanced(c, u);
  }

  lemma CtxRbRename(i: Ctx, c: Ctx, l: Tree, x: Range, y: Range, k: Color, h: nat)
    ensures CtxRb(Compose(i, InRight(c, l, x, k)), h) <==> CtxRb(Compose(i, InRight(c, l, y, k)), h)
  {
  }

  /** The successor `s` leaves its place and stands in for the root of `t`. */
  lemma {:induction false} SpliceBalance(c: Ctx, t: Tree, i: Ctx, s: Tree)
    requires Balanced(Plug(c, t)) && t.Node? && Plug(i, s) == t.right && s.Node? && s.left.Leaf?
    ensures var e := Compose(i, InRight(c, t.left, s.elm, t.color));
      && (s.color.Black? ==> Short(e, s.right))
      && (s.color.Red? ==> Balanced(Plug(e, s.right)))
  {
    var d, e := Compose(i, InRight(c, t.left, t.elm, t.color)), Compose(i, InRight(c, t.left, s.elm, t.color));
    PlugCompose(i, InRight(c, t.left, t.elm, t.color), s);
    OnlyChild(d, s, s.right);
    PlugBalanced(d, s.right);
    PlugBalanced(e, s.right);
    CtxRbRename(i, c, t.left, t.elm, s.elm, t.color, BlackHeight(s.right));
    CtxRbRename(i, c, t.left, t.elm, s.elm, t.color, BlackHeight(s.right) + 1);
    ComposeColor(i, c, t.left, t.elm, s.elm, t.color);
  }

  lemma ComposeColor(i: Ctx, c: Ctx, l: Tree, x: Range, y: Range, k: Color)
    ensures var d, e := Compose(i, InRight(c, l, x, k)), Compose(i, InRight(c, l, y, k));
      !d.Top? && !e.Top? && d.color == e.color
  {
  }

  lemma {:induction false} NodeOrder(c: Ctx, t: Tree) returns (a: seq<Range>, b: seq<Range>)
    requires t.Node?
    ensures a == Before(c) + Inorder(t.left) && b == Inorder(t.right) + After(c)
    ensures Inorder(Plug(c, t)) == a + [t.elm] + b
  {
    a, b := Before(c) + Inorder(t.left), Inorder(t.right) + After(c);
    PlugInorder(c, t);
    Regroup(Before(c), Inorder(t.left), [t.elm], Inorder(t.right), After(c));
    assert a + [t.elm] + Inorder(t.right) + After(c) == a + [t.elm] + b;
  }

  lemma {:induction false} DetachOrder(c: Ctx, t: Tree, u: Tree) returns (a: seq<Range>, b: seq<Range>)
    requires t.Node? && ((t.left.Leaf? && u == t.right) || (t.right.Leaf? && u == t.left))
    ensures Inorder(Plug(c, t)) == a + [t.elm] + b && Inorder(Plug(c, u)) == a + b
  {
    a, b := NodeOrder(c, t);
    PlugInorder(c, u);
    if t.left.Leaf? {
      assert a == Before(c);
    } else {
      assert b == After(c);
    }
  }

  lemma {:induction false} SpliceOrder(c: Ctx, t: Tree, i: Ctx, s: Tree) returns (a: seq<Range>, b: seq<Range>)
    requires t.Node? && Plug(i, s) == t.right && s.Node? && s.left.Leaf? && Before(i) == []
    ensures Inorder(Plug(c, t)) == a + [t.elm] + b
    ensures Inorder(Plug(c, Node(t.left, s.elm, t.color, Plug(i, s.right)))) == a + b
  {
    var r := Plug(i, s.right);
    SuccessorFirst(i, s);
    var x, y := NodeOrder(c, Node(t.left, s.elm, t.color, r));
    a, b := NodeOrder(c, t);
    assert b == [s.elm] + y;
  }

  lemma {:induction false} SuccessorFirst(i: Ctx, s: Tree)
    requires s.Node? && s.left.Leaf? && Before(i) == []
    ensures Inorder(Plug(i, s)) == [s.elm] + Inorder(Plug(i, s.right))
  {
    PlugInorder(i, s);
    PlugInorder(i, s.right);
  }

  lemma {:induction false} TakenOut(v: Tree, w: Tree, a: seq<Range>, n: Range, b: seq<Range>)
    requires Ordered(Inorder(v)) && Inorder(v) == a + [n] + b && Inorder(w) == a + b
    ensures Ordered(Inorder(w)) && n !in Nodes(w) && Nodes(w) == Nodes(v) - {n}
  {
    OrderedAround(a, n, b);
    InorderNodes(v);
    InorderNodes(w);
    assert Members(a + [n] + b) == Members(a + b) + {n};
    assert n !in a && n !in b;
  }

  lemma {:induction false} ChildOrder(c: Ctx, t: Tree)
    requires t.Node? && Ordered(Inorder(Plug(c, t)))
    ensures t.left.Node? ==> t.left.elm.end < t.elm.base
    ensures t.right.Node? ==> t.elm.end < t.right.elm.base
  {
    var a, b := NodeOrder(c, t);
    OrderedAround(a, t.elm, b);
    assert t.left.Node? ==> t.left.elm in Inorder(t.left);
    assert t.right.Node? ==> t.right.elm in Inorder(t.right);
  }

  // ---- height ----

  function Height(t: Tree): nat {
    if t.Leaf? then 0 else 1 + if Height(t.left) < Height(t.right) then Height(t.right) else Height(t.left)
  }

  function Pow2(n: nat): (r: nat)
    ensures r >= 1
  {
    if n == 0 then 1 else 2 * Pow2(n - 1)
  }

  lemma Pow2Add(m: nat, n: nat)
    ensures Pow2(m + n) == Pow2(m) * Pow2(n)
  {
    if m > 0 {
      Pow2Add(m - 1, n);
    }
  }

  lemma {:induction false} BlackHeightSize(t: Tree)
    requires Rb(t)
    ensures Pow2(BlackHeight(t)) <= |Inorder(t)| + 1
    ensures Height(t) <= 2 * BlackHeight(t) + if IsRed(t) then 1 else 0
  {
    if t.Node? {
      BlackHeightSize(t.left);
      BlackHeightSize(t.right);
    }
  }

  lemma {:induction false} Pow2Mono(m: nat, n: nat)
    requires m <= n
    ensures Pow2(m) <= Pow2(n)
  {
    if m < n {
      Pow2Mono(m, n - 1);
    }
  }

  lemma SquareMono(a: nat, b: nat)
    requires a <= b
    ensures a * a <= b * b
  {
  }

  /** A tree of n ranges has height at most 2 lg(n + 1). */
  lemma {:induction false} HeightBound(t: Tree)
    requires Balanced(t)
    ensures var n := |Inorder(t)|; Pow2(Height(t)) <= (n + 1) * (n + 1)
  {
    BlackHeightSize(t);
    var h, n := BlackHeight(t), |Inorder(t)|;
    Pow2Mono(Height(t), h + h);
    Pow2Add(h, h);
    SquareMono(Pow2(h), n + 1);
  }
}
