module RbTree {
  import opened RbShape
  import opened RbBalance

  ghost function CellOf(n: Range): Cell
    reads n
  {
    Cell(n.left, n.right, n.parent, n.color)
  }

  class RbTree {
    var root: Range?
    ghost var store: Store  // the link fields of the nodes this tree owns

    ghost predicate Agrees()
      reads `store, store.Keys
    {
      forall n :: n in store.Keys ==> CellOf(n) == store[n]
    }

    /** The heap tree is Plug(c, t), with every link and colour as the shape says. */
    ghost predicate At(c: Ctx, t: Tree)
      reads `root, `store, store.Keys
    {
      Agrees() && Fits(c, t, root, store)
    }

    ghost var shape: Tree   // the tree the links form between operations

    /** Between operations: a red-black tree, in order, owning exactly its own nodes. */
    ghost predicate Valid()
      reads this, store.Keys
    {
      && At(Top, shape) && store.Keys == Nodes(shape)
      && Balanced(shape) && Ordered(Inorder(shape))
    }

    /** The registered ranges, lowest first. */
    ghost function Entries(): seq<Range>
      reads `shape
    {
      Inorder(shape)
    }

    lemma Owned(n: Range)
      requires Valid()
      ensures n in Entries() <==> n in store
    {
      InorderNodes(shape);
      assert n in Members(Inorder(shape)) <==> n in store;
    }

    constructor ()
      ensures Valid() && Entries() == [] && store == map[]
    {
      root, store, shape := null, map[], Leaf;
    }

    ghost method Adopt(w: Tree)
      requires At(Top, w) && store.Keys == Nodes(w) && Balanced(w) && Ordered(Inorder(w))
      modifies `shape
      ensures Valid() && Entries() == Inorder(w)
    {
      shape := w;
    }

    method SetLeft(n: Range, v: Range?)
      requires Agrees() && n in store
      modifies `store, n`left
      ensures Agrees() && store == old(store)[n := old(store)[n].(left := v)]
    {
      n.left := v;
      store := store[n := store[n].(left := v)];
    }

    method SetRight(n: Range, v: Range?)
      requires Agrees() && n in store
      modifies `store, n`right
      ensures Agrees() && store == old(store)[n := old(store)[n].(right := v)]
    {
      n.right := v;
      store := store[n := store[n].(right := v)];
    }

    method SetParent(n: Range, v: Range?)
      requires Agrees() && n in store
      modifies `store, n`parent
      ensures Agrees() && store == old(store)[n := old(store)[n].(parent := v)]
    {
      n.parent := v;
      store := store[n := store[n].(parent := v)];
    }

    method SetColor(n: Range, k: Color)
      requires Agrees() && n in store
      modifies `store, n`color
      ensures Agrees() && store == old(store)[n := old(store)[n].(color := k)]
    {
      n.color := k;
      store := store[n := store[n].(color := k)];
    }

    /** Hang subtree `u` in the hole of `c`, where node `was` hung. */
    method Hang(parent: Range?, was: Range, now: Range?, ghost c: Ctx, ghost u: Tree)
      requires Agrees() && ApartCtx(c) && Held(c, was, root, store) && was !in CtxNodes(c)
      requires Apart(u) && Nodes(u) !! CtxNodes(c) && Linked(u, Above(c), store) && parent == Above(c) && now == Root(u)
      modifies this, store.Keys
      ensures At(c, u) && store.Keys == old(store.Keys)
      ensures was in store ==> store[was] == old(store)[was]
    {
      RehungHeld(c, was, now, root, store);
      LinkedFrame(u, Above(c), store, Rehung(c, now, store));
      if parent != null {
        if parent.left == was {
          SetLeft(parent, now);
        } else {
          SetRight(parent, now);
        }
      } else {
        root := now;
      }
    }

    method TurnLeft(elm: Range, tmp: Range, ghost b: Range?, ghost p: Range?)
      requires Agrees() && elm in store && store[elm].right == tmp && store[elm].parent == p
      requires tmp in store && tmp != elm && store[tmp].left == b
      requires b != null ==> b in store && b != elm && b != tmp
      modifies `store, elm, tmp, if b == null then {} else {b}
      ensures Agrees() && store == TurnedLeft(elm, tmp, b, p, old(store))
    {
      assert CellOf(elm) == store[elm] && CellOf(tmp) == store[tmp] && (b != null ==> CellOf(b) == store[b]);
      elm.right := tmp.left;
      if elm.right != null {
        tmp.left.parent := elm;
      }
      tmp.parent := elm.parent;
      tmp.left := elm;
      elm.parent := tmp;
      ghost var m := store;
      store := TurnedLeft(elm, tmp, b, p, m);
      assert CellOf(elm) == store[elm];
      assert CellOf(tmp) == store[tmp];
      assert b != null ==> CellOf(b) == store[b];
      assert forall n :: n in m && n != elm && n != tmp && n != b ==> store[n] == m[n] && CellOf(n) == store[n];
    }

    method RotateLeft(elm: Range, ghost c: Ctx, ghost t: Tree) returns (tmp: Range)
      requires At(c, t) && t.Node? && t.right.Node? && elm == t.elm
      modifies this, store.Keys
      ensures tmp == t.right.elm && At(c, RotatedLeft(t))
      ensures store.Keys == old(store.Keys)
    {
      RotateLeftReady(t, Above(c), store);
      RotatedLeftFits(c, t, root, store);
      tmp := elm.right;
      TurnLeft(elm, tmp, Root(t.right.left), Above(c));
      assert tmp.parent == Above(c);
      Hang(tmp.parent, elm, tmp, c, RotatedLeft(t));
    }

    method TurnRight(elm: Range, tmp: Range, ghost b: Range?, ghost p: Range?)
      requires Agrees() && elm in store && store[elm].left == tmp && store[elm].parent == p
      requires tmp in store && tmp != elm && store[tmp].right == b
      requires b != null ==> b in store && b != elm && b != tmp
      modifies `store, elm, tmp, if b == null then {} else {b}
      ensures Agrees() && store == TurnedRight(elm, tmp, b, p, old(store))
    {
      assert CellOf(elm) == store[elm] && CellOf(tmp) == store[tmp] && (b != null ==> CellOf(b) == store[b]);
      elm.left := tmp.right;
      if elm.left != null {
        tmp.right.parent := elm;
      }
      tmp.parent := elm.parent;
      tmp.right := elm;
      elm.parent := tmp;
      ghost var m := store;
      store := TurnedRight(elm, tmp, b, p, m);
      assert CellOf(elm) == store[elm];
      assert CellOf(tmp) == store[tmp];
      assert b != null ==> CellOf(b) == store[b];
      assert forall n :: n in m && n != elm && n != tmp && n != b ==> store[n] == m[n] && CellOf(n) == store[n];
    }

    method RotateRight(elm: Range, ghost c: Ctx, ghost t: Tree) returns (tmp: Range)
      requires At(c, t) && t.Node? && t.left.Node? && elm == t.elm
      modifies this, store.Keys
      ensures tmp == t.left.elm && At(c, RotatedRight(t))
      ensures store.Keys == old(store.Keys)
    {
      RotateRightReady(t, Above(c), store);
      RotatedRightFits(c, t, root, store);
      tmp := elm.left;
      TurnRight(elm, tmp, Root(t.left.right), Above(c));
      assert tmp.parent == Above(c);
      Hang(tmp.parent, elm, tmp, c, RotatedRight(t));
    }

    /** The fields of the node in focus. */
    lemma Peek(c: Ctx, t: Tree)
      requires At(c, t) && t.Node?
      ensures t.elm in store && t.elm.left == Root(t.left) && t.elm.right == Root(t.right)
      ensures t.elm.parent == Above(c) && t.elm.color == t.color
    {
    }

    /** The fields of the node above the focus. */
    lemma PeekUp(c: Ctx, t: Tree)
      requires At(c, t) && !c.Top?
      ensures At(c.up, Fill(c, t))
      ensures c.elm in store && c.elm.parent == Above(c.up) && c.elm.color == c.color
      ensures c.InLeft? ==> c.elm.left == Root(t) && c.elm.right == Root(c.right)
      ensures c.InRight? ==> c.elm.left == Root(c.left) && c.elm.right == Root(t)
    {
    }

    /** The fields of the sibling of the focus. */
    lemma PeekSide(c: Ctx, t: Tree)
      requires At(c, t) && !c.Top? && Side(c).Node?
      ensures var s := Side(c);
        && s.elm in store && s.elm.color == s.color && s.elm.parent == c.elm
        && s.elm.left == Root(s.left) && s.elm.right == Root(s.right)
    {
    }

    /** The colours of the children of the sibling. */
    lemma PeekNephews(c: Ctx, t: Tree)
      requires At(c, t) && !c.Top? && Side(c).Node?
      ensures var s := Side(c);
        && s.elm.left == Root(s.left) && s.elm.right == Root(s.right)
        && (s.left.Node? ==> s.left.elm.color == s.left.color)
        && (s.right.Node? ==> s.right.elm.color == s.right.color)
    {
      PeekSide(c, t);
      FitsUp(c, t, root, store);
      assert Linked(Side(c), c.elm, store);
      assert Linked(Side(c).left, Side(c).elm, store) && Linked(Side(c).right, Side(c).elm, store);
    }

    method Paint(n: Range, k: Color, ghost c: Ctx, ghost t: Tree)
      requires At(c, t) && n in Nodes(t)
      modifies this, store.Keys
      ensures At(c, Painted(t, n, k)) && store.Keys == old(store.Keys)
    {
      PaintedFits(c, t, n, k, root, store);
      SetColor(n, k);
    }

    method SetBlackRed(black: Range, red: Range, ghost c: Ctx, ghost t: Tree)
      requires At(c, t) && black in Nodes(t) && red in Nodes(t)
      modifies this, store.Keys
      ensures At(c, Painted(Painted(t, black, Black), red, Red)) && store.Keys == old(store.Keys)
    {
      PaintedFits(c, t, black, Black, root, store);
      SetColor(black, Black);
      PaintedFits(c, Painted(t, black, Black), red, Red, root, store);
      SetColor(red, Red);
    }

    method Recolor(tmp: Range, parent: Range, gparent: Range, ghost c: Ctx, ghost g: Tree)
      requires At(c, g) && g.Node? && g.left.Node? && g.right.Node? && gparent == g.elm
      requires || (parent == g.left.elm && tmp == g.right.elm)
               || (parent == g.right.elm && tmp == g.left.elm)
      modifies this, store.Keys
      ensures At(c, Recolored(g)) && store.Keys == old(store.Keys)
    {
      RecoloredPaint(g);
      Paint(tmp, Black, c, g);
      SetBlackRed(parent, gparent, c, Painted(g, tmp, Black));
    }

    method StraightenLeft(parent: Range, ghost c: Ctx, ghost t: Tree) returns (ghost u: Ctx, ghost s: Tree)
      requires At(c, t) && Rising(c, t) && c.InRight? && c.color.Red? && c.up.InLeft? && parent == c.elm
      modifies this, store.Keys
      ensures At(u, s) && Rising(u, s) && store.Keys == old(store.Keys)
      ensures u == InLeft(c.up, t.elm, Red, t.right) && s == Node(c.left, c.elm, Red, t.left)
      ensures Inorder(Plug(u, s)) == Inorder(Plug(c, t))
    {
      PeekUp(c, t);
      StraightenedLeft(c, t);
      RotatedLeftInorder(Fill(c, t));
      SameInorder(c.up, Fill(c, t), RotatedLeft(Fill(c, t)));
      var _ := RotateLeft(parent, c.up, Fill(c, t));
      u, s := InLeft(c.up, t.elm, Red, t.right), Node(c.left, c.elm, Red, t.left);
      FitsUp(u, s, root, store);
    }

    method SettleLeft(parent: Range, gparent: Range, ghost c: Ctx, ghost t: Tree) returns (ghost u: Ctx)
      requires At(c, t) && Rising(c, t) && c.InLeft? && c.color.Red? && c.up.InLeft? && !IsRed(c.up.right)
      requires parent == c.elm && gparent == c.up.elm
      modifies this, store.Keys
      ensures u == InLeft(c.up.up, c.elm, Black, Node(c.right, c.up.elm, Red, c.up.right))
      ensures At(u, t) && Rising(u, t) && store.Keys == old(store.Keys)
      ensures Inorder(Plug(u, t)) == Inorder(Plug(c, t))
    {
      ghost var g := Fill(c.up, Fill(c, t));
      PeekUp(c, t);
      PeekUp(c.up, Fill(c, t));
      SettledLeft(c, t);
      BlackRedPaint(g);
      ghost var p := Painted(Painted(g, parent, Black), gparent, Red);
      SettledLeftInorder(c, t);
      SetBlackRed(parent, gparent, c.up.up, g);
      var _ := RotateRight(gparent, c.up.up, p);
      u := InLeft(c.up.up, c.elm, Black, Node(c.right, c.up.elm, Red, c.up.right));
      FitsUp(u, t, root, store);
    }

    /** One round of RB_INSERT_COLOR when the parent is a left child. */
    method InsertFixLeft(elm: Range, parent: Range, gparent: Range, ghost c: Ctx, ghost t: Tree)
        returns (e: Range, ghost u: Ctx, ghost s: Tree)
      requires At(c, t) && Rising(c, t) && !c.Top? && c.color.Red? && c.up.InLeft?
      requires elm == t.elm && parent == c.elm && gparent == c.up.elm
      modifies this, store.Keys
      ensures At(u, s) && Rising(u, s) && s.elm == e && store.Keys == old(store.Keys)
      ensures Depth(u) < Depth(c) && Inorder(Plug(u, s)) == Inorder(Plug(c, t))
    {
      PeekUp(c, t);
      PeekUp(c.up, Fill(c, t));
      if c.up.right.Node? {
        PeekSide(c.up, Fill(c, t));
      }
      var tmp := gparent.right;
      if tmp != null && tmp.color == Red {
        ghost var g := Fill(c.up, Fill(c, t));
        RecoloredRising(c, t);
        RecoloredInorder(g);
        SameInorder(c.up.up, g, Recolored(g));
        Recolor(tmp, parent, gparent, c.up.up, g);
        return gparent, c.up.up, Recolored(g);
      }
      if parent.right == elm {
        u, s := StraightenLeft(parent, c, t);
        u := SettleLeft(elm, gparent, u, s);
        return parent, u, s;
      }
      u := SettleLeft(parent, gparent, c, t);
      return elm, u, t;
    }

    method StraightenRight(parent: Range, ghost c: Ctx, ghost t: Tree) returns (ghost u: Ctx, ghost s: Tree)
      requires At(c, t) && Rising(c, t) && c.InLeft? && c.color.Red? && c.up.InRight? && parent == c.elm
      modifies this, store.Keys
      ensures At(u, s) && Rising(u, s) && store.Keys == old(store.Keys)
      ensures u == InRight(c.up, t.left, t.elm, Red) && s == Node(t.right, c.elm, Red, c.right)
      ensures Inorder(Plug(u, s)) == Inorder(Plug(c, t))
    {
      PeekUp(c, t);
      StraightenedRight(c, t);
      RotatedRightInorder(Fill(c, t));
      SameInorder(c.up, Fill(c, t), RotatedRight(Fill(c, t)));
      var _ := RotateRight(parent, c.up, Fill(c, t));
      u, s := InRight(c.up, t.left, t.elm, Red), Node(t.right, c.elm, Red, c.right);
      FitsUp(u, s, root, store);
    }

    method SettleRight(parent: Range, gparent: Range, ghost c: Ctx, ghost t: Tree) returns (ghost u: Ctx)
      requires At(c, t) && Rising(c, t) && c.InRight? && c.color.Red? && c.up.InRight? && !IsRed(c.up.left)
      requires parent == c.elm && gparent == c.up.elm
      modifies this, store.Keys
      ensures u == InRight(c.up.up, Node(c.up.left, c.up.elm, Red, c.left), c.elm, Black)
      ensures At(u, t) && Rising(u, t) && store.Keys == old(store.Keys)
      ensures Inorder(Plug(u, t)) == Inorder(Plug(c, t))
    {
      ghost var g := Fill(c.up, Fill(c, t));
      PeekUp(c, t);
      PeekUp(c.up, Fill(c, t));
      SettledRight(c, t);
      BlackRedPaint(g);
      ghost var p := Painted(Painted(g, parent, Black), gparent, Red);
      SettledRightInorder(c, t);
      SetBlackRed(parent, gparent, c.up.up, g);
      var _ := RotateLeft(gparent, c.up.up, p);
      u := InRight(c.up.up, Node(c.up.left, c.up.elm, Red, c.left), c.elm, Black);
      FitsUp(u, t, root, store);
    }

    /** One round of RB_INSERT_COLOR when the parent is a right child. */
    method InsertFixRight(elm: Range, parent: Range, gparent: Range, ghost c: Ctx, ghost t: Tree)
        returns (e: Range, ghost u: Ctx, ghost s: Tree)
      requires At(c, t) && Rising(c, t) && !c.Top? && c.color.Red? && c.up.InRight?
      requires elm == t.elm && parent == c.elm && gparent == c.up.elm
      modifies this, store.Keys
      ensures At(u, s) && Rising(u, s) && s.elm == e && store.Keys == old(store.Keys)
      ensures Depth(u) < Depth(c) && Inorder(Plug(u, s)) == Inorder(Plug(c, t))
    {
      PeekUp(c, t);
      PeekUp(c.up, Fill(c, t));
      if c.up.left.Node? {
        PeekSide(c.up, Fill(c, t));
      }
      var tmp := gparent.left;
      if tmp != null && tmp.color == Red {
        ghost var g := Fill(c.up, Fill(c, t));
        RecoloredRising(c, t);
        RecoloredInorder(g);
        SameInorder(c.up.up, g, Recolored(g));
        Recolor(tmp, parent, gparent, c.up.up, g);
        return gparent, c.up.up, Recolored(g);
      }
      if parent.left == elm {
        u, s := StraightenRight(parent, c, t);
        u := SettleRight(elm, gparent, u, s);
        return parent, u, s;
      }
      u := SettleRight(parent, gparent, c, t);
      return elm, u, t;
    }

    method InsertColor(node: Range, ghost c0: Ctx, ghost t0: Tree) returns (ghost w: Tree)
      requires At(c0, t0) && Rising(c0, t0) && node == t0.elm
      modifies this, store.Keys
      ensures At(Top, w) && Balanced(w) && store.Keys == old(store.Keys)
      ensures Inorder(w) == Inorder(Plug(c0, t0))
    {
      var elm := node;
      ghost var c, t := c0, t0;
      Peek(c, t);
      while elm.parent != null && elm.parent.color == Red
        invariant At(c, t) && Rising(c, t) && elm == t.elm && store.Keys == old(store.Keys)
        invariant elm.parent == Above(c)
        invariant Inorder(Plug(c, t)) == Inorder(Plug(c0, t0))
        decreases Depth(c)
      {
        PeekUp(c, t);
        RedParent(c, t);
        PeekUp(c.up, Fill(c, t));
        var parent := elm.parent;
        var gparent := parent.parent;
        if parent == gparent.left {
          elm, c, t := InsertFixLeft(elm, parent, gparent, c, t);
        } else {
          elm, c, t := InsertFixRight(elm, parent, gparent, c, t);
        }
        Peek(c, t);
      }
      if !c.Top? {
        PeekUp(c, t);
      }
      RisingDone(c, t);
      FitsPlug(c, t, root, store);
      w := Plug(c, t);
      PaintedInorder(w, w.elm, Black);
      Paint(root, Black, Top, w);
      w := Painted(w, w.elm, Black);
    }

    /** The descent shared by RB_FIND and RB_INSERT: a node comparing equal, or the empty slot. */
    method Descend(elm: Range) returns (hit: Range?, parent: Range?, comp: int, ghost c: Ctx)
      requires Valid() && elm.base <= elm.end
      ensures hit != null ==> hit in Entries() && Compare(elm, hit) == 0
      ensures hit == null ==>
        && Plug(c, Leaf) == shape && parent == Above(c) && (c.InLeft? ==> comp < 0) && (c.InRight? ==> comp > 0)
        && Below(Before(c), elm) && Beyond(After(c), elm)
    {
      var tmp := root;
      parent, comp := null, 0;
      c := Top;
      ghost var t := shape;
      while tmp != null
        invariant Plug(c, t) == shape && tmp == Root(t) && parent == Above(c)
        invariant (c.InLeft? ==> comp < 0) && (c.InRight? ==> comp > 0)
        invariant Below(Before(c), elm) && Beyond(After(c), elm)
        decreases t
      {
        FitsPlug(c, t, root, store);
        Peek(c, t);
        Narrow(c, t, elm);
        parent := tmp;
        comp := Compare(elm, parent);
        if comp < 0 {
          tmp := tmp.left;
          c, t := InLeft(c, t.elm, t.color, t.right), t.left;
        } else if comp > 0 {
          tmp := tmp.right;
          c, t := InRight(c, t.left, t.elm, t.color), t.right;
        } else {
          PlugNodes(c, t);
          InorderNodes(shape);
          return tmp, parent, comp, c;
        }
      }
      hit := null;
    }

    /** RB_SET followed by the link from the parent: `elm` fills the empty slot, red. */
    method Link(elm: Range, parent: Range?, comp: int, ghost c: Ctx)
      requires At(c, Leaf) && elm !in store && CtxNodes(c) <= store.Keys && parent == Above(c)
      requires (c.InLeft? ==> comp < 0) && (c.InRight? ==> comp > 0)
      modifies this, store.Keys, elm
      ensures At(c, Node(Leaf, elm, Red, Leaf)) && store.Keys == old(store.Keys) + {elm}
      ensures shape == old(shape)
    {
      elm.parent, elm.left, elm.right, elm.color := parent, null, null, Red;
      LinkedIn(c, elm, root, store);
      store := store[elm := Cell(null, null, parent, Red)];
      if parent != null {
        if comp < 0 {
          SetLeft(parent, elm);
        } else {
          SetRight(parent, elm);
        }
      } else {
        root := elm;
      }
    }

    method Attach(elm: Range, parent: Range?, comp: int, ghost c: Ctx)
      requires Valid() && elm !in store && elm.base <= elm.end && Plug(c, Leaf) == shape && parent == Above(c)
      requires (c.InLeft? ==> comp < 0) && (c.InRight? ==> comp > 0)
      requires Below(Before(c), elm) && Beyond(After(c), elm)
      modifies this, store.Keys, elm
      ensures Valid() && Entries() == Before(c) + [elm] + After(c) && store.Keys == old(store.Keys) + {elm}
    {
      ghost var t := Node(Leaf, elm, Red, Leaf);
      FitsPlug(c, Leaf, root, store);
      PlugNodes(c, Leaf);
      SlotRising(c, elm);
      SlotFilled(c, elm);
      Link(elm, parent, comp, c);
      ghost var w := InsertColor(elm, c, t);
      InorderNodes(w);
      InorderNodes(Plug(c, t));
      Adopt(w);
    }

    /** RB_INSERT. */
    method Insert(elm: Range) returns (overlap: Range?)
      requires Valid() && elm !in store && elm.base <= elm.end
      modifies this, store.Keys, elm
      ensures Valid()
      ensures overlap == null <==> Clear(old(Entries()), elm)
      ensures overlap != null ==> overlap in old(Entries()) && Overlap(elm, overlap)
      ensures overlap != null ==> shape == old(shape) && store == old(store)
      ensures overlap == null ==> store.Keys == old(store.Keys) + {elm}
      ensures overlap == null ==> exists a, b :: old(Entries()) == a + b && Entries() == a + [elm] + b
    {
      var parent, comp;
      ghost var c;
      overlap, parent, comp, c := Descend(elm);
      if overlap != null {
        OrderedAt(Entries(), overlap);
        CompareOverlap(elm, overlap);
      } else {
        SlotFree(c, elm);
        PlugInorder(c, Leaf);
        assert Entries() == Before(c) + After(c);
        Attach(elm, parent, comp, c);
      }
    }

    method LiftLeft(tmp: Range, parent: Range, ghost c: Ctx, ghost t: Tree)
      requires At(c, t) && c.InLeft? && c.right.Node? && tmp == c.right.elm && parent == c.elm
      modifies this, store.Keys
      ensures At(LiftedLeft(c), t) && store.Keys == old(store.Keys)
    {
      ghost var f, u := Fill(c, t), LiftedLeft(c);
      PeekUp(c, t);
      BlackRedPaint(f);
      LiftedMoves(c, t);
      SetBlackRed(tmp, parent, c.up, f);
      var _ := RotateLeft(parent, c.up, f.(right := f.right.(color := Black), color := Red));
      FitsUp(u.up, Fill(u, t), root, store);
      FitsUp(u, t, root, store);
    }

    method NephewLeft(tmp: Range, ghost c: Ctx, ghost t: Tree)
      requires At(c, t) && c.InLeft? && c.right.Node? && c.right.left.Node? && tmp == c.right.elm
      modifies this, store.Keys
      ensures At(c.(right := NephewOutLeft(c.right)), t) && store.Keys == old(store.Keys)
    {
      ghost var s := c.right;
      ghost var d := InRight(c.up, t, c.elm, c.color);
      FitsUp(c, t, root, store);
      FitsUp(d, s, root, store);
      Peek(d, s);
      BlackRedPaint(s);
      NephewOutMoves(s);
      var oleft := tmp.left;
      if oleft != null {
        Paint(oleft, Black, d, s);
      }
      Paint(tmp, Red, d, Painted(s, s.left.elm, Black));
      oleft := RotateRight(tmp, d, s.(left := s.left.(color := Black), color := Red));
      FitsUp(d, NephewOutLeft(s), root, store);
      FitsUp(c.(right := NephewOutLeft(s)), t, root, store);
    }

    method CloseLeft(tmp: Range, parent: Range, ghost c: Ctx, ghost t: Tree)
      requires At(c, t) && c.InLeft? && c.right.Node? && c.right.right.Node? && tmp == c.right.elm && parent == c.elm
      modifies this, store.Keys
      ensures At(c.up, ClosedLeft(c, t)) && store.Keys == old(store.Keys)
    {
      ghost var f := Fill(c, t);
      ghost var n := c.right.right.elm;
      PeekUp(c, t);
      ClosedMoves(c, t);
      Paint(tmp, parent.color, c.up, f);
      f := Painted(f, tmp, c.color);
      Paint(parent, Black, c.up, f);
      f := Painted(f, parent, Black);
      assert f == Node(t, parent, Black, c.right.(color := c.color));
      PeekSide(InLeft(c.up, parent, Black, c.right.(color := c.color)), t);
      if tmp.right != null {
        Paint(tmp.right, Black, c.up, f);
      }
      var _ := RotateLeft(parent, c.up, Painted(f, n, Black));
    }

    /** The rest of the round once the sibling `tmp` is black. */
    method RemoveCloseLeft(sibling: Range, parent: Range, ghost c: Ctx, ghost t: Tree)
        returns (done: bool, e: Range?, p: Range?, ghost u: Ctx, ghost s: Tree)
      requires At(c, t) && Short(c, t) && c.InLeft? && !IsRed(t) && parent == c.elm
      requires c.right.Node? && c.right.color.Black? && sibling == c.right.elm
      modifies this, store.Keys
      ensures At(u, s) && Short(u, s) && e == Root(s) && store.Keys == old(store.Keys)
      ensures Inorder(Plug(u, s)) == Inorder(Plug(c, t))
      ensures if done then u.Top? else p == Above(u) && u == c.up && (IsRed(s) <==> c.color.Red?)
    {
      var tmp := sibling;
      PeekNephews(c, t);
      if (tmp.left == null || tmp.left.color == Black) && (tmp.right == null || tmp.right.color == Black) {
        PassedUp(c, t);
        SidePaint(c, t);
        PeekUp(c, t);
        Paint(tmp, Red, c.up, Fill(c, t));
        u, s := c.up, Painted(Fill(c, t), tmp, Red);
        Peek(u, s);
        return false, parent, parent.parent, u, s;
      }
      u := c;
      if tmp.right == null || tmp.right.color == Black {
        NephewOutLeftShort(c, t);
        NephewOutMoves(c.right);
        NephewLeft(tmp, c, t);
        u := c.(right := NephewOutLeft(c.right));
        SameInorder(c.up, Fill(c, t), Fill(u, t));
        PeekUp(u, t);
        tmp := parent.right;
      }
      ClosedBalanced(u, t);
      PeekUp(u, t);
      ClosedMoves(u, t);
      SameInorder(u.up, Fill(u, t), ClosedLeft(u, t));
      CloseLeft(tmp, parent, u, t);
      FitsPlug(u.up, ClosedLeft(u, t), root, store);
      done, e, u, s := true, root, Top, Plug(u.up, ClosedLeft(u, t));
      p := null;
    }

    /** One round of RB_REMOVE_COLOR when the short subtree is a left child. */
    method RemoveFixLeft(parent: Range, elm: Range?, ghost c: Ctx, ghost t: Tree)
        returns (done: bool, e: Range?, p: Range?, ghost u: Ctx, ghost s: Tree)
      requires At(c, t) && Short(c, t) && c.InLeft? && !IsRed(t) && parent == c.elm && elm == Root(t)
      modifies this, store.Keys
      ensures At(u, s) && Short(u, s) && e == Root(s) && store.Keys == old(store.Keys)
      ensures Inorder(Plug(u, s)) == Inorder(Plug(c, t))
      ensures if done then u.Top? else p == Above(u) && Rounds(u, s) < Rounds(c, t)
    {
      u := c;
      ShortSide(u, t);
      PeekUp(u, t);
      PeekSide(u, t);
      var tmp := parent.right;
      if tmp.color == Red {
        LiftedShort(u, t);
        LiftedMoves(u, t);
        LiftLeft(tmp, parent, u, t);
        u := LiftedLeft(u);
        PeekUp(u, t);
        PeekSide(u, t);
        tmp := parent.right;
      }
      done, e, p, u, s := RemoveCloseLeft(tmp, parent, u, t);
    }

    method LiftRight(tmp: Range, parent: Range, ghost c: Ctx, ghost t: Tree)
      requires At(c, t) && c.InRight? && c.left.Node? && tmp == c.left.elm && parent == c.elm
      modifies this, store.Keys
      ensures At(LiftedRight(c), t) && store.Keys == old(store.Keys)
    {
      ghost var f, u := Fill(c, t), LiftedRight(c);
      PeekUp(c, t);
      BlackRedPaint(f);
      LiftedMoves(c, t);
      SetBlackRed(tmp, parent, c.up, f);
      var _ := RotateRight(parent, c.up, f.(left := f.left.(color := Black), color := Red));
      FitsUp(u.up, Fill(u, t), root, store);
      FitsUp(u, t, root, store);
    }

    method NephewRight(tmp: Range, ghost c: Ctx, ghost t: Tree)
      requires At(c, t) && c.InRight? && c.left.Node? && c.left.right.Node? && tmp == c.left.elm
      modifies this, store.Keys
      ensures At(c.(left := NephewOutRight(c.left)), t) && store.Keys == old(store.Keys)
    {
      ghost var s := c.left;
      ghost var d := InLeft(c.up, c.elm, c.color, t);
      FitsUp(c, t, root, store);
      FitsUp(d, s, root, store);
      Peek(d, s);
      BlackRedPaint(s);
      NephewOutMoves(s);
      var oright := tmp.right;
      if oright != null {
        Paint(oright, Black, d, s);
      }
      Paint(tmp, Red, d, Painted(s, s.right.elm, Black));
      oright := RotateLeft(tmp, d, s.(right := s.right.(color := Black), color := Red));
      FitsUp(d, NephewOutRight(s), root, store);
      FitsUp(c.(left := NephewOutRight(s)), t, root, store);
    }

    method CloseRight(tmp: Range, parent: Range, ghost c: Ctx, ghost t: Tree)
      requires At(c, t) && c.InRight? && c.left.Node? && c.left.left.Node? && tmp == c.left.elm && parent == c.elm
      modifies this, store.Keys
      ensures At(c.up, ClosedRight(c, t)) && store.Keys == old(store.Keys)
    {
      ghost var f := Fill(c, t);
      ghost var n := c.left.left.elm;
      PeekUp(c, t);
      ClosedMoves(c, t);
      Paint(tmp, parent.color, c.up, f);
      f := Painted(f, tmp, c.color);
      Paint(parent, Black, c.up, f);
      f := Painted(f, parent, Black);
      assert f == Node(c.left.(color := c.color), parent, Black, t);
      PeekSide(InRight(c.up, c.left.(color := c.color), parent, Black), t);
      if tmp.left != null {
        Paint(tmp.left, Black, c.up, f);
      }
      var _ := RotateRight(parent, c.up, Painted(f, n, Black));
    }

    /** The rest of the round once the sibling `tmp` is black. */
    method RemoveCloseRight(sibling: Range, parent: Range, ghost c: Ctx, ghost t: Tree)
        returns (done: bool, e: Range?, p: Range?, ghost u: Ctx, ghost s: Tree)
      requires At(c, t) && Short(c, t) && c.InRight? && !IsRed(t) && parent == c.elm
      requires c.left.Node? && c.left.color.Black? && sibling == c.left.elm
      modifies this, store.Keys
      ensures At(u, s) && Short(u, s) && e == Root(s) && store.Keys == old(store.Keys)
      ensures Inorder(Plug(u, s)) == Inorder(Plug(c, t))
      ensures if done then u.Top? else p == Above(u) && u == c.up && (IsRed(s) <==> c.color.Red?)
    {
      var tmp := sibling;
      PeekNephews(c, t);
      if (tmp.right == null || tmp.right.color == Black) && (tmp.left == null || tmp.left.color == Black) {
        PassedUp(c, t);
        SidePaint(c, t);
        PeekUp(c, t);
        Paint(tmp, Red, c.up, Fill(c, t));
        u, s := c.up, Painted(Fill(c, t), tmp, Red);
        Peek(u, s);
        return false, parent, parent.parent, u, s;
      }
      u := c;
      if tmp.left == null || tmp.left.color == Black {
        NephewOutRightShort(c, t);
        NephewOutMoves(c.left);
        NephewRight(tmp, c, t);
        u := c.(left := NephewOutRight(c.left));
        SameInorder(c.up, Fill(c, t), Fill(u, t));
        PeekUp(u, t);
        tmp := parent.left;
      }
      ClosedBalanced(u, t);
      PeekUp(u, t);
      ClosedMoves(u, t);
      SameInorder(u.up, Fill(u, t), ClosedRight(u, t));
      CloseRight(tmp, parent, u, t);
      FitsPlug(u.up, ClosedRight(u, t), root, store);
      done, e, u, s := true, root, Top, Plug(u.up, ClosedRight(u, t));
      p := null;
    }

    /** One round of RB_REMOVE_COLOR when the short subtree is a right child. */
    method RemoveFixRight(parent: Range, elm: Range?, ghost c: Ctx, ghost t: Tree)
        returns (done: bool, e: Range?, p: Range?, ghost u: Ctx, ghost s: Tree)
      requires At(c, t) && Short(c, t) && c.InRight? && !IsRed(t) && parent == c.elm && elm == Root(t)
      modifies this, store.Keys
      ensures At(u, s) && Short(u, s) && e == Root(s) && store.Keys == old(store.Keys)
      ensures Inorder(Plug(u, s)) == Inorder(Plug(c, t))
      ensures if done then u.Top? else p == Above(u) && Rounds(u, s) < Rounds(c, t)
    {
      u := c;
      ShortSide(u, t);
      PeekUp(u, t);
      PeekSide(u, t);
      var tmp := parent.left;
      if tmp.color == Red {
        LiftedShort(u, t);
        LiftedMoves(u, t);
        LiftRight(tmp, parent, u, t);
        u := LiftedRight(u);
        PeekUp(u, t);
        PeekSide(u, t);
        tmp := parent.left;
      }
      done, e, p, u, s := RemoveCloseRight(tmp, parent, u, t);
    }

    method Blacken(elm: Range?, ghost c: Ctx, ghost t: Tree) returns (ghost w: Tree)
      requires At(c, t) && Short(c, t) && elm == Root(t) && (c.Top? || IsRed(t))
      modifies this, store.Keys
      ensures At(Top, w) && Balanced(w) && store.Keys == old(store.Keys)
      ensures Inorder(w) == Inorder(Plug(c, t))
    {
      ShortDone(c, t);
      ghost var s := t;
      if elm != null {
        PaintedInorder(t, elm, Black);
        Paint(elm, Black, c, t);
        s := Painted(t, elm, Black);
      }
      SameInorder(c, t, s);
      FitsPlug(c, s, root, store);
      w := Plug(c, s);
    }

    method RemoveColor(parent0: Range?, elm0: Range?, ghost c0: Ctx, ghost t0: Tree) returns (ghost w: Tree)
      requires At(c0, t0) && Short(c0, t0) && parent0 == Above(c0) && elm0 == Root(t0)
      modifies this, store.Keys
      ensures At(Top, w) && Balanced(w) && store.Keys == old(store.Keys)
      ensures Inorder(w) == Inorder(Plug(c0, t0))
    {
      var parent, elm := parent0, elm0;
      ghost var c, t := c0, t0;
      while (elm == null || elm.color == Black) && elm != root
        invariant At(c, t) && Short(c, t) && elm == Root(t) && parent == Above(c)
        invariant store.Keys == old(store.Keys) && Inorder(Plug(c, t)) == Inorder(Plug(c0, t0))
        decreases Rounds(c, t)
      {
        FitsRoot(c, t, root, store);
        if t.Node? {
          Peek(c, t);
        }
        PeekUp(c, t);
        ShortSide(c, t);
        var done;
        if parent.left == elm {
          done, elm, parent, c, t := RemoveFixLeft(parent, elm, c, t);
        } else {
          done, elm, parent, c, t := RemoveFixRight(parent, elm, c, t);
        }
        if done {
          break;
        }
      }
      FitsRoot(c, t, root, store);
      if t.Node? {
        Peek(c, t);
      }
      w := Blacken(elm, c, t);
    }

    /** Unlink `elm`, which has at most the one subtree `u`, rooted at `child`. */
    method Detach(elm: Range, child: Range?, ghost c: Ctx, ghost t: Tree, ghost u: Tree) returns (parent: Range?)
      requires At(c, t) && t.Node? && elm == t.elm && child == Root(u)
      requires (t.left.Leaf? && u == t.right) || (t.right.Leaf? && u == t.left)
      modifies this, store.Keys
      ensures At(c, u) && parent == Above(c) && store.Keys == old(store.Keys)
      ensures elm in store && store[elm] == old(store)[elm]
    {
      Peek(c, t);
      DetachedFits(c, t, u, root, store);
      parent := elm.parent;
      if child != null {
        SetParent(child, parent);
      }
      Hang(parent, elm, child, c, u);
    }

    /** `elm` takes over the link fields of `was`, and its children follow. */
    method TakeOver(was: Range, elm: Range, ghost t: Tree)
      requires Agrees() && t.Node? && was == t.elm && elm != was && was in store && elm in store
      requires t.left.Node? && t.left.elm in store && t.left.elm != elm && t.left.elm != was
      requires t.right.Node? ==> t.right.elm in store && t.right.elm != elm && t.right.elm != was
      requires store[was].left == Root(t.left) && store[was].right == Root(t.right)
      modifies `store, store.Keys
      ensures Agrees() && store == Supplanted(t, elm, old(store))
    {
      elm.left, elm.right, elm.parent, elm.color := was.left, was.right, was.parent, was.color;
      store := store[elm := store[was]];
      assert CellOf(was) == store[was];
      SetParent(was.left, elm);
      assert CellOf(was) == store[was];
      if was.right != null {
        SetParent(was.right, elm);
      }
    }

    /** `elm` takes over the place, links and colour of `was`. */
    method Supplant(was: Range, elm: Range, ghost c: Ctx, ghost t: Tree)
      requires At(c, t) && t.Node? && t.left.Node? && was == t.elm
      requires elm in store && elm !in Nodes(t) && elm !in CtxNodes(c)
      modifies this, store.Keys
      ensures At(c, t.(elm := elm)) && store.Keys == old(store.Keys)
    {
      Peek(c, t);
      SupplantedFits(c, t, elm, root, store);
      TakeOver(was, elm, t);
      assert CellOf(was) == store[was];
      Hang(was.parent, was, elm, c, t.(elm := elm));
    }

    /** The leftmost node of the right subtree. */
    method Successor(was: Range, ghost c: Ctx, ghost t: Tree) returns (elm: Range, ghost i: Ctx, ghost s: Tree)
      requires At(c, t) && t.Node? && t.right.Node? && was == t.elm
      ensures Plug(i, s) == t.right && s.Node? && s.left.Leaf? && elm == s.elm && Before(i) == []
      ensures At(Compose(i, InRight(c, t.left, t.elm, t.color)), s)
    {
      ghost var d := InRight(c, t.left, t.elm, t.color);
      Peek(c, t);
      elm := was.right;
      i, s := Top, t.right;
      FitsUp(d, s, root, store);
      Peek(d, s);
      while elm.left != null
        invariant Plug(i, s) == t.right && s.Node? && elm == s.elm && Before(i) == []
        invariant At(Compose(i, d), s) && elm.left == Root(s.left)
        decreases s
      {
        FitsUp(InLeft(Compose(i, d), s.elm, s.color, s.right), s.left, root, store);
        elm := elm.left;
        i, s := InLeft(i, s.elm, s.color, s.right), s.left;
        Peek(Compose(i, d), s);
      }
    }

    ghost method Forget(n: Range, w: Tree)
      requires At(Top, w) && n !in Nodes(w)
      modifies `store
      ensures At(Top, w) && store == old(store) - {n}
    {
      LinkedFrame(w, null, store, store - {n});
      store := store - {n};
    }

    /** Unlink the successor `elm` and let it stand in for `was`. */
    method SpliceLinks(was: Range, elm: Range, child: Range?, ghost c: Ctx, ghost t: Tree, ghost i: Ctx, ghost s: Tree)
        returns (parent: Range?)
      requires t.Node? && t.left.Node? && was == t.elm && Plug(i, s) == t.right
      requires s.Node? && s.left.Leaf? && elm == s.elm && child == Root(s.right)
      requires At(Compose(i, InRight(c, t.left, was, t.color)), s)
      modifies this, store.Keys
      ensures var e := Compose(i, InRight(c, t.left, elm, t.color));
        At(e, s.right) && parent == Above(e) && store.Keys == old(store.Keys)
    {
      ghost var d, e := InRight(c, t.left, was, t.color), InRight(c, t.left, elm, t.color);
      ghost var r := t.(right := Plug(i, s.right));
      SpliceApart(c, t, i, s, root, store);
      ComposeAbove(i, d);
      ComposeAbove(i, e);
      parent := Detach(elm, child, Compose(i, d), s, s.right);
      FitsCompose(i, d, s.right, root, store);
      FitsUp(d, r.right, root, store);
      if elm.parent == was {
        parent := elm;
      }
      Supplant(was, elm, c, r);
      FitsUp(e, r.right, root, store);
      FitsCompose(i, e, s.right, root, store);
    }

    /** Removal of a node with two children. */
    method RemoveInner(was: Range, ghost c: Ctx, ghost t: Tree) returns (ghost w: Tree, ghost a: seq<Range>, ghost b: seq<Range>)
      requires At(c, t) && Balanced(Plug(c, t)) && t.Node? && t.left.Node? && t.right.Node? && was == t.elm
      modifies this, store.Keys
      ensures At(Top, w) && Balanced(w) && store.Keys == old(store.Keys)
      ensures Inorder(Plug(c, t)) == a + [was] + b && Inorder(w) == a + b
    {
      var elm;
      ghost var i, s;
      elm, i, s := Successor(was, c, t);
      ghost var e := Compose(i, InRight(c, t.left, elm, t.color));
      SpliceBalance(c, t, i, s);
      a, b := SpliceOrder(c, t, i, s);
      PlugCompose(i, InRight(c, t.left, elm, t.color), s.right);
      Peek(Compose(i, InRight(c, t.left, was, t.color)), s);
      var child, color := elm.right, elm.color;
      var parent := SpliceLinks(was, elm, child, c, t, i, s);
      w := Plug(e, s.right);
      if color == Black {
        w := RemoveColor(parent, child, e, s.right);
      } else {
        FitsPlug(e, s.right, root, store);
      }
    }

    /** Removal of a node with at most one subtree `u`. */
    method RemoveOuter(elm: Range, child: Range?, ghost c: Ctx, ghost t: Tree, ghost u: Tree)
        returns (ghost w: Tree, ghost a: seq<Range>, ghost b: seq<Range>)
      requires At(c, t) && Balanced(Plug(c, t)) && t.Node? && elm == t.elm && child == Root(u)
      requires (t.left.Leaf? && u == t.right) || (t.right.Leaf? && u == t.left)
      modifies this, store.Keys
      ensures At(Top, w) && Balanced(w) && store.Keys == old(store.Keys)
      ensures Inorder(Plug(c, t)) == a + [elm] + b && Inorder(w) == a + b
    {
      Peek(c, t);
      OnlyChild(c, t, u);
      a, b := DetachOrder(c, t, u);
      var color := elm.color;
      var parent := Detach(elm, child, c, t, u);
      w := Plug(c, u);
      if color == Black {
        w := RemoveColor(parent, child, c, u);
      } else {
        FitsPlug(c, u, root, store);
      }
    }

    /** RB_REMOVE. */
    method Remove(elm: Range) returns (was: Range)
      requires Valid() && elm in store
      modifies this, store.Keys
      ensures Valid() && was == elm && store.Keys == old(store.Keys) - {elm}
      ensures exists a, b :: old(Entries()) == a + [elm] + b && Entries() == a + b
    {
      was := elm;
      ghost var v := shape;
      ghost var c, t := Locate(v, elm);
      FitsPlug(c, t, root, store);
      Peek(c, t);
      ghost var w, a, b;
      if elm.left == null {
        w, a, b := RemoveOuter(elm, elm.right, c, t, t.right);
      } else if elm.right == null {
        w, a, b := RemoveOuter(elm, elm.left, c, t, t.left);
      } else {
        w, a, b := RemoveInner(elm, c, t);
      }
      TakenOut(v, w, a, elm, b);
      Forget(elm, w);
      Adopt(w);
    }

    /** RB_FIND with the one-address key that mmio_rb_lookup builds. */
    method Lookup(addr: nat) returns (entry: Range?)
      requires Valid()
      ensures entry != null ==> entry in store && entry in Entries() && Covers(entry, addr)
      ensures entry == null ==> Uncovered(Entries(), addr)
      ensures Valid() && Entries() == old(Entries())
    {
      var find := new Range(MemRange("", 0, 0, addr, 1), addr, addr);
      var parent, comp;
      ghost var c;
      entry, parent, comp, c := Descend(find);
      if entry == null {
        SlotFree(c, find);
        assert Covers(find, addr);
      } else {
        Owned(entry);
      }
    }

    // What Valid means field by field, with no shape in sight.

    lemma UpLinks(n: Range)
      requires Valid() && n in store
      ensures n.parent == null <==> n == root
      ensures n.parent != null ==> n.parent in store && (n.parent.left == n || n.parent.right == n)
      ensures n.color == Red ==> n.parent != null && n.parent.color == Black
    {
      var c, t := Locate(shape, n);
      FitsPlug(c, t, root, store);
      Peek(c, t);
      FitsRoot(c, t, root, store);
      PlugBalanced(c, t);
      if !c.Top? {
        PeekUp(c, t);
      }
    }

    lemma DownLinks(n: Range)
      requires Valid() && n in store
      ensures n.left != null ==> n.left in store && n.left.parent == n && n.left.end < n.base
      ensures n.right != null ==> n.right in store && n.right.parent == n && n.end < n.right.base
    {
      var c, t := Locate(shape, n);
      FitsPlug(c, t, root, store);
      Peek(c, t);
      ChildOrder(c, t);
      if t.left.Node? {
        FitsUp(InLeft(c, n, t.color, t.right), t.left, root, store);
        Peek(InLeft(c, n, t.color, t.right), t.left);
      }
      if t.right.Node? {
        FitsUp(InRight(c, t.left, n, t.color), t.right, root, store);
        Peek(InRight(c, t.left, n, t.color), t.right);
      }
    }
  }
}
