/** Rebalancing a red/black tree after an insertion or a removal (RBtreeNode.cpp). */
module RBtreeNode {
  import opened TreeShape
  import opened BinTreeNode

  // ----- The red/black rules -----

  ghost function RootColor(t: Tree): Color {
    if t.Leaf? then Black else t.c
  }

  /** The number of black nodes on the leftmost path (on every path, when the rules hold). */
  ghost function BlackHeight(t: Tree): nat {
    if t.Leaf? then 0 else BlackHeight(t.l) + if t.c == Black then 1 else 0
  }

  /** No red node has a red child, and all paths to a leaf pass the same number of black nodes. */
  ghost predicate RedBlack(t: Tree) {
    t.Bin? ==>
      && RedBlack(t.l) && RedBlack(t.r) && BlackHeight(t.l) == BlackHeight(t.r)
      && (t.c == Red ==> RootColor(t.l) == Black && RootColor(t.r) == Black)
  }

  /** Filled with a red/black tree of black height h whose root has colour c, the context is red/black. */
  ghost predicate CtxRedBlack(k: Ctx, h: nat, c: Color) {
    !k.Top? ==>
      && RedBlack(k.sib) && BlackHeight(k.sib) == h
      && (k.c == Red ==> c == Black && RootColor(k.sib) == Black)
      && CtxRedBlack(k.up, if k.c == Black then h + 1 else h, k.c)
  }

  /** The root of the whole tree is not in the hole, or is black. */
  ghost predicate TopBlack(k: Ctx) {
    !k.Top? ==> if k.up.Top? then k.c == Black else TopBlack(k.up)
  }

  lemma {:induction false} PlugRedBlack(k: Ctx, t: Tree)
    ensures RedBlack(Plug(k, t)) <==> RedBlack(t) && CtxRedBlack(k, BlackHeight(t), RootColor(t))
    decreases k
  {
    if !k.Top? {
      PlugRedBlack(k.up, Fill(k, t));
    }
  }

  lemma {:induction false} PlugTopBlack(k: Ctx, t: Tree)
    requires !k.Top?
    ensures RootColor(Plug(k, t)) == Black <==> TopBlack(k)
    decreases k
  {
    if !k.up.Top? {
      PlugTopBlack(k.up, Fill(k, t));
    }
  }

  lemma RenamedRedBlack(t: Tree, y: Node, z: Node)
    ensures BlackHeight(Renamed(t, y, z)) == BlackHeight(t) && RootColor(Renamed(t, y, z)) == RootColor(t)
    ensures RedBlack(Renamed(t, y, z)) <==> RedBlack(t)
  {}

  /** Two trees with the same nodes in order stay so in the same context. */
  lemma SameInorder(k: Ctx, t: Tree, u: Tree)
    requires Inorder(t) == Inorder(u)
    ensures Inorder(Plug(k, t)) == Inorder(Plug(k, u))
  {
    PlugInorder(k, t);
    PlugInorder(k, u);
  }

  lemma {:induction false} ToTop(s: set<Node>, k: Ctx, t: Tree, leaf: Node)
    requires At(s, k, t, leaf)
    ensures At(s, Top, Plug(k, t), leaf)
    decreases k
  {
    if !k.Top? {
      Refocus(s, k, t, leaf);
      ToTop(s, k.up, Fill(k, t), leaf);
    }
  }

  // ----- addFixup -----

  /** A red node x at the focus, its parent p, its grandparent g: all is well except that p may be red too. */
  ghost predicate Added(k: Ctx, t: Tree) {
    t.Bin? && t.c == Red && RedBlack(t) && CtxRedBlack(k, BlackHeight(t), Black) && TopBlack(k)
  }

  /** Fields of the focused node's parent. */
  lemma StandUp(s: set<Node>, k: Ctx, t: Tree, leaf: Node)
    requires At(s, k, t, leaf) && !k.Top?
    ensures At(s, k.up, Fill(k, t), leaf)
    ensures k.n in s && k.n.parent == ParentOf(k.up) && k.n.color == k.c
    ensures (k.n.IsLeftChild() <==> k.up.InLeft?) && (k.n.IsRightChild() <==> k.up.InRight?)
    ensures k.InLeft? ==> k.n.left == RootOf(t, leaf) && k.n.right == RootOf(k.sib, leaf)
    ensures k.InRight? ==> k.n.right == RootOf(t, leaf) && k.n.left == RootOf(k.sib, leaf)
  {
    Refocus(s, k, t, leaf);
    Stand(s, k.up, Fill(k, t), leaf);
  }

  /** The context of the sibling of the focused node. */
  ghost function SiblingCtx(k: Ctx, t: Tree): Ctx
    requires !k.Top?
  {
    if k.InLeft? then InRight(k.up, k.n, k.c, t) else InLeft(k.up, k.n, k.c, t)
  }

  ghost function WithSibling(k: Ctx, w: Tree): Ctx
    requires !k.Top?
  {
    if k.InLeft? then InLeft(k.up, k.n, k.c, w) else InRight(k.up, k.n, k.c, w)
  }

  lemma Sidestep(s: set<Node>, k: Ctx, t: Tree, leaf: Node)
    requires At(s, k, t, leaf) && !k.Top?
    ensures At(s, SiblingCtx(k, t), k.sib, leaf) && (k.sib.Bin? ==> k.sib.n in s)
    ensures RootOf(k.sib, leaf).color == RootColor(k.sib)
  {
    Refocus(s, k, t, leaf);
    Refocus(s, SiblingCtx(k, t), k.sib, leaf);
    Fields(s, SiblingCtx(k, t), k.sib, leaf);
  }

  /** The subtree at the grandparent when parent and uncle turn black and the grandparent red. */
  ghost function UncleRecolored(k: Ctx, t: Tree): Tree
    requires !k.Top? && !k.up.Top?
  {
    Painted(Fill(SiblingCtx(k.up, Painted(Fill(k, t), Black)), Painted(k.up.sib, Black)), Red)
  }

  lemma UncleRecoloredAdded(k: Ctx, t: Tree)
    requires Added(k, t) && !k.Top? && !k.up.Top? && k.c == Red && RootColor(k.up.sib) == Red
    ensures Added(k.up.up, UncleRecolored(k, t)) && UncleRecolored(k, t).n == k.up.n
    ensures Inorder(Plug(k.up.up, UncleRecolored(k, t))) == Inorder(Plug(k, t))
  {
    var p, u := Painted(Fill(k, t), Black), Painted(k.up.sib, Black);
    assert TopBlack(k.up);
    assert CtxRedBlack(k.up, BlackHeight(t), Red);
    assert RedBlack(p) && BlackHeight(p) == BlackHeight(t) + 1;
    assert RedBlack(k.up.sib) && RedBlack(u) && BlackHeight(u) == BlackHeight(t) + 1;
    assert Inorder(p) == Inorder(Fill(k, t)) && Inorder(u) == Inorder(k.up.sib);
    assert Plug(k, t) == Plug(k.up.up, Fill(k.up, Fill(k, t)));
    SameInorder(k.up.up, Fill(k.up, Fill(k, t)), UncleRecolored(k, t));
  }

  /** The uncle y is red: recolour it, the parent and the grandparent. */
  method RecolorUncle(x: Node, y: Node, ghost s: set<Node>, ghost k: Ctx, ghost t: Tree, ghost leaf: Node)
    requires At(s, k, t, leaf) && t.Bin? && x == t.n && !k.Top? && !k.up.Top?
    requires k.up.sib.Bin? && y == k.up.sib.n
    modifies s
    ensures At(s, k.up.up, UncleRecolored(k, t), leaf)
  {
    hide At, Plug, Nodes;
    Stand(s, k, t, leaf);
    StandUp(s, k, t, leaf);
    SetColor(x.parent, Black, s, k.up, Fill(k, t), leaf);
    ghost var p := Painted(Fill(k, t), Black);
    Sidestep(s, k.up, p, leaf);
    SetColor(y, Black, s, SiblingCtx(k.up, p), k.up.sib, leaf);
    StandUp(s, SiblingCtx(k.up, p), Painted(k.up.sib, Black), leaf);
    SetColor(x.parent.parent, Red, s, k.up.up, Fill(SiblingCtx(k.up, p), Painted(k.up.sib, Black)), leaf);
  }

  // The uncle is black and the parent is a left child.

  /** The context of x once its parent has been rotated into the place of its grandparent. */
  ghost function LiftedLeft(k: Ctx): Ctx
    requires k.InLeft? && k.up.InLeft?
  {
    InLeft(k.up.up, k.n, Black, Bin(k.sib, k.up.n, Red, k.up.sib))
  }

  lemma LiftedLeftAdded(k: Ctx, t: Tree)
    requires Added(k, t) && k.InLeft? && k.up.InLeft? && k.c == Red && RootColor(k.up.sib) == Black
    ensures Added(LiftedLeft(k), t) && Inorder(Plug(LiftedLeft(k), t)) == Inorder(Plug(k, t))
  {
    var g := Bin(k.sib, k.up.n, Red, k.up.sib);
    assert TopBlack(k.up);
    assert CtxRedBlack(k.up, BlackHeight(t), Red);
    assert RedBlack(g) && BlackHeight(g) == BlackHeight(t);
    var p := Fill(k, t);
    var before, after := Fill(k.up, p), Fill(LiftedLeft(k), t);
    assert Inorder(before) == (Inorder(t) + [k.n] + Inorder(k.sib)) + [k.up.n] + Inorder(k.up.sib);
    assert Inorder(after) == Inorder(t) + [k.n] + (Inorder(k.sib) + [k.up.n] + Inorder(k.up.sib));
    assert Plug(k, t) == Plug(k.up.up, before) && Plug(LiftedLeft(k), t) == Plug(k.up.up, after);
    SameInorder(k.up.up, before, after);
  }

  /** x is a left child too: recolour parent and grandparent, and rotate the grandparent right. */
  method LiftLeft(x: Node, ghost s: set<Node>, ghost k: Ctx, ghost t: Tree, ghost leaf: Node)
    requires At(s, k, t, leaf) && t.Bin? && x == t.n && k.InLeft? && k.up.InLeft?
    modifies s, leaf`parent
    ensures At(s, LiftedLeft(k), t, leaf)
  {
    hide At, Plug, Nodes;
    Stand(s, k, t, leaf);
    StandUp(s, k, t, leaf);
    SetColor(x.parent, Black, s, k.up, Fill(k, t), leaf);
    ghost var p := Painted(Fill(k, t), Black);
    StandUp(s, k.up, p, leaf);
    SetColor(x.parent.parent, Red, s, k.up.up, Fill(k.up, p), leaf);
    ghost var g := Painted(Fill(k.up, p), Red);
    RotateRight(x.parent.parent, s, k.up.up, g, leaf);
    Refocus(s, LiftedLeft(k), t, leaf);
  }

  /** The focus on the parent once it has been rotated below x. */
  ghost function LoweredLeft(k: Ctx, t: Tree): (r: (Ctx, Tree))
    requires k.InRight? && k.up.InLeft? && t.Bin?
  {
    (InLeft(k.up, t.n, t.c, t.r), Bin(k.sib, k.n, k.c, t.l))
  }

  lemma LoweredLeftAdded(k: Ctx, t: Tree)
    requires Added(k, t) && k.InRight? && k.up.InLeft? && k.c == Red
    ensures var (k', t') := LoweredLeft(k, t);
      Added(k', t') && k'.c == Red && Inorder(Plug(k', t')) == Inorder(Plug(k, t))
  {
    var (k', t') := LoweredLeft(k, t);
    assert TopBlack(k.up);
    assert RedBlack(t');
    var before, after := Fill(k, t), Fill(k', t');
    assert Inorder(before) == Inorder(k.sib) + [k.n] + (Inorder(t.l) + [t.n] + Inorder(t.r));
    assert Inorder(after) == (Inorder(k.sib) + [k.n] + Inorder(t.l)) + [t.n] + Inorder(t.r);
    assert Plug(k, t) == Plug(k.up, before) && Plug(k', t') == Plug(k.up, after);
    SameInorder(k.up, before, after);
  }

  /** x is a right child: rotate its parent left, and look at the parent instead. */
  method LowerLeft(x: Node, ghost s: set<Node>, ghost k: Ctx, ghost t: Tree, ghost leaf: Node) returns (x': Node)
    requires At(s, k, t, leaf) && t.Bin? && x == t.n && k.InRight? && k.up.InLeft?
    modifies s, leaf`parent
    ensures x' == k.n && At(s, LoweredLeft(k, t).0, LoweredLeft(k, t).1, leaf)
  {
    hide At, Plug, Nodes;
    Stand(s, k, t, leaf);
    StandUp(s, k, t, leaf);
    x' := x.parent;
    RotateLeft(x', s, k.up, Fill(k, t), leaf);
    Refocus(s, LoweredLeft(k, t).0, LoweredLeft(k, t).1, leaf);
  }

  // The uncle is black and the parent is a right child.

  /** The context of x once its parent has been rotated into the place of its grandparent. */
  ghost function LiftedRight(k: Ctx): Ctx
    requires k.InRight? && k.up.InRight?
  {
    InRight(k.up.up, k.n, Black, Bin(k.up.sib, k.up.n, Red, k.sib))
  }

  lemma LiftedRightAdded(k: Ctx, t: Tree)
    requires Added(k, t) && k.InRight? && k.up.InRight? && k.c == Red && RootColor(k.up.sib) == Black
    ensures Added(LiftedRight(k), t) && Inorder(Plug(LiftedRight(k), t)) == Inorder(Plug(k, t))
  {
    var g := Bin(k.up.sib, k.up.n, Red, k.sib);
    assert TopBlack(k.up);
    assert CtxRedBlack(k.up, BlackHeight(t), Red);
    assert RedBlack(g) && BlackHeight(g) == BlackHeight(t);
    var p := Fill(k, t);
    var before, after := Fill(k.up, p), Fill(LiftedRight(k), t);
    assert Inorder(before) == Inorder(k.up.sib) + [k.up.n] + (Inorder(k.sib) + [k.n] + Inorder(t));
    assert Inorder(after) == (Inorder(k.up.sib) + [k.up.n] + Inorder(k.sib)) + [k.n] + Inorder(t);
    assert Plug(k, t) == Plug(k.up.up, before) && Plug(LiftedRight(k), t) == Plug(k.up.up, after);
    SameInorder(k.up.up, before, after);
  }

  /** x is a right child too: recolour parent and grandparent, and rotate the grandparent left. */
  method LiftRight(x: Node, ghost s: set<Node>, ghost k: Ctx, ghost t: Tree, ghost leaf: Node)
    requires At(s, k, t, leaf) && t.Bin? && x == t.n && k.InRight? && k.up.InRight?
    modifies s, leaf`parent
    ensures At(s, LiftedRight(k), t, leaf)
  {
    hide At, Plug, Nodes;
    Stand(s, k, t, leaf);
    StandUp(s, k, t, leaf);
    SetColor(x.parent, Black, s, k.up, Fill(k, t), leaf);
    ghost var p := Painted(Fill(k, t), Black);
    StandUp(s, k.up, p, leaf);
    SetColor(x.parent.parent, Red, s, k.up.up, Fill(k.up, p), leaf);
    ghost var g := Painted(Fill(k.up, p), Red);
    RotateLeft(x.parent.parent, s, k.up.up, g, leaf);
    Refocus(s, LiftedRight(k), t, leaf);
  }

  /** The focus on the parent once it has been rotated below x. */
  ghost function LoweredRight(k: Ctx, t: Tree): (r: (Ctx, Tree))
    requires k.InLeft? && k.up.InRight? && t.Bin?
  {
    (InRight(k.up, t.n, t.c, t.l), Bin(t.r, k.n, k.c, k.sib))
  }

  lemma LoweredRightAdded(k: Ctx, t: Tree)
    requires Added(k, t) && k.InLeft? && k.up.InRight? && k.c == Red
    ensures var (k', t') := LoweredRight(k, t);
      Added(k', t') && k'.c == Red && Inorder(Plug(k', t')) == Inorder(Plug(k, t))
  {
    var (k', t') := LoweredRight(k, t);
    assert TopBlack(k.up);
    assert RedBlack(t');
    var before, after := Fill(k, t), Fill(k', t');
    assert Inorder(before) == (Inorder(t.l) + [t.n] + Inorder(t.r)) + [k.n] + Inorder(k.sib);
    assert Inorder(after) == Inorder(t.l) + [t.n] + (Inorder(t.r) + [k.n] + Inorder(k.sib));
    assert Plug(k, t) == Plug(k.up, before) && Plug(k', t') == Plug(k.up, after);
    SameInorder(k.up, before, after);
  }

  /** x is a left child: rotate its parent right, and look at the parent instead. */
  method LowerRight(x: Node, ghost s: set<Node>, ghost k: Ctx, ghost t: Tree, ghost leaf: Node) returns (x': Node)
    requires At(s, k, t, leaf) && t.Bin? && x == t.n && k.InLeft? && k.up.InRight?
    modifies s, leaf`parent
    ensures x' == k.n && At(s, LoweredRight(k, t).0, LoweredRight(k, t).1, leaf)
  {
    hide At, Plug, Nodes;
    Stand(s, k, t, leaf);
    StandUp(s, k, t, leaf);
    x' := x.parent;
    RotateRight(x', s, k.up, Fill(k, t), leaf);
    Refocus(s, LoweredRight(k, t).0, LoweredRight(k, t).1, leaf);
  }

  /** One round of the loop when x's parent is a left child. */
  method AddFixupLeft(x: Node, ghost s: set<Node>, ghost k: Ctx, ghost t: Tree, ghost leaf: Node)
    returns (x': Node, ghost k': Ctx, ghost t': Tree)
    requires At(s, k, t, leaf) && Added(k, t) && x == t.n && !k.Top? && k.c == Red && k.up.InLeft?
    modifies s, leaf`parent
    ensures At(s, k', t', leaf) && Added(k', t') && x' == t'.n && CtxDepth(k') < CtxDepth(k)
    ensures Inorder(Plug(k', t')) == Inorder(Plug(k, t))
  {
    hide At, Plug, Nodes, RedBlack, CtxRedBlack, Inorder;
    Stand(s, k, t, leaf);
    StandUp(s, k, t, leaf);
    StandUp(s, k.up, Fill(k, t), leaf);
    Sidestep(s, k.up, Fill(k, t), leaf);
    var y := x.parent.Sibling();
    if y.color == Red {
      UncleRecoloredAdded(k, t);
      x', k', t' := x.parent.parent, k.up.up, UncleRecolored(k, t);
      RecolorUncle(x, y, s, k, t, leaf);
    } else {
      x', k', t' := x, k, t;
      if x.IsRightChild() {
        LoweredLeftAdded(k, t);
        x' := LowerLeft(x, s, k, t, leaf);
        k', t' := LoweredLeft(k, t).0, LoweredLeft(k, t).1;
      }
      LiftedLeftAdded(k', t');
      LiftLeft(x', s, k', t', leaf);
      k' := LiftedLeft(k');
    }
  }

  /** One round of the loop when x's parent is a right child. */
  method AddFixupRight(x: Node, ghost s: set<Node>, ghost k: Ctx, ghost t: Tree, ghost leaf: Node)
    returns (x': Node, ghost k': Ctx, ghost t': Tree)
    requires At(s, k, t, leaf) && Added(k, t) && x == t.n && !k.Top? && k.c == Red && k.up.InRight?
    modifies s, leaf`parent
    ensures At(s, k', t', leaf) && Added(k', t') && x' == t'.n && CtxDepth(k') < CtxDepth(k)
    ensures Inorder(Plug(k', t')) == Inorder(Plug(k, t))
  {
    hide At, Plug, Nodes, RedBlack, CtxRedBlack, Inorder;
    Stand(s, k, t, leaf);
    StandUp(s, k, t, leaf);
    StandUp(s, k.up, Fill(k, t), leaf);
    Sidestep(s, k.up, Fill(k, t), leaf);
    var y := x.parent.Sibling();
    if y.color == Red {
      UncleRecoloredAdded(k, t);
      x', k', t' := x.parent.parent, k.up.up, UncleRecolored(k, t);
      RecolorUncle(x, y, s, k, t, leaf);
    } else {
      x', k', t' := x, k, t;
      if x.IsLeftChild() {
        LoweredRightAdded(k, t);
        x' := LowerRight(x, s, k, t, leaf);
        k', t' := LoweredRight(k, t).0, LoweredRight(k, t).1;
      }
      LiftedRightAdded(k', t');
      LiftRight(x', s, k', t', leaf);
      k' := LiftedRight(k');
    }
  }

  lemma RedHasParent(k: Ctx, t: Tree)
    requires Added(k, t) && !k.Top? && k.c == Red
    ensures !k.up.Top?
  {}

  lemma AddedRedBlack(k: Ctx, t: Tree)
    requires Added(k, t) && (k.Top? || k.c == Black)
    ensures RedBlack(Plug(k, t)) && Plug(k, t).Bin?
  {
    PlugRedBlack(k, t);
    PlugBin(k, t);
  }

  lemma {:induction false} PlugBin(k: Ctx, t: Tree)
    requires t.Bin?
    ensures Plug(k, t).Bin?
    decreases k
  {
    if !k.Top? {
      PlugBin(k.up, Fill(k, t));
    }
  }

  /**
   * addFixup(): restore the rules after a red node has been hung in the tree. The root may come out red; resetRoot
   * repairs that. The nodes stay in order.
   */
  method AddFixup(x0: Node, ghost s: set<Node>, ghost k0: Ctx, ghost t0: Tree, ghost leaf: Node)
    returns (ghost w: Tree)
    requires At(s, k0, t0, leaf) && Added(k0, t0) && x0 == t0.n
    modifies s, leaf`parent
    ensures At(s, Top, w, leaf) && w.Bin? && RedBlack(w)
    ensures Inorder(w) == Inorder(Plug(k0, t0))
  {
    hide At, Plug, Nodes, RedBlack, CtxRedBlack, Inorder;
    var x := x0;
    ghost var k, t := k0, t0;
    AddStand(s, k, t, leaf);
    while x.parent != null && x.parent.color == Red
      invariant At(s, k, t, leaf) && Added(k, t) && x == t.n && x.parent == ParentOf(k)
      invariant !k.Top? ==> k.n.color == k.c
      invariant Inorder(Plug(k, t)) == Inorder(Plug(k0, t0))
      decreases CtxDepth(k)
    {
      RedHasParent(k, t);
      StandUp(s, k, t, leaf);
      if x.parent.IsLeftChild() {
        x, k, t := AddFixupLeft(x, s, k, t, leaf);
      } else {
        x, k, t := AddFixupRight(x, s, k, t, leaf);
      }
      AddStand(s, k, t, leaf);
    }
    AddedRedBlack(k, t);
    ToTop(s, k, t, leaf);
    w := Plug(k, t);
  }

  lemma AddStand(s: set<Node>, k: Ctx, t: Tree, leaf: Node)
    requires At(s, k, t, leaf) && t.Bin?
    ensures t.n in s && t.n.parent == ParentOf(k) && (!k.Top? ==> k.n in s && k.n.color == k.c)
  {
    Stand(s, k, t, leaf);
    if !k.Top? {
      StandUp(s, k, t, leaf);
    }
  }

  ghost function CtxDepth(k: Ctx): nat {
    if k.Top? then 0 else 1 + CtxDepth(k.up)
  }

  // ----- removeFixup -----

  /** The subtree t at the focus is one black node short; its root may be red under a red parent. */
  ghost predicate Lacking(k: Ctx, t: Tree) {
    RedBlack(Painted(t, Black)) && CtxRedBlack(k, BlackHeight(t) + 1, Black)
  }

  /** A sibling of a subtree that is short is not the leaf, so x is plainly a left or a right child. */
  lemma LackingSibling(k: Ctx, t: Tree)
    requires Lacking(k, t) && !k.Top?
    ensures k.sib.Bin?
  {}

  lemma SidestepBack(s: set<Node>, k: Ctx, t: Tree, w: Tree, leaf: Node)
    requires !k.Top? && At(s, SiblingCtx(k, t), w, leaf)
    ensures At(s, WithSibling(k, w), t, leaf)
  {
    Refocus(s, SiblingCtx(k, t), w, leaf);
    Refocus(s, WithSibling(k, w), t, leaf);
  }

  /** Both children of the sibling are black: it turns red, and the parent's subtree is the one that is short. */
  lemma SiblingRedLacking(k: Ctx, t: Tree)
    requires Lacking(k, t) && RootColor(t) == Black && !k.Top?
    requires k.sib.Bin? && k.sib.c == Black && RootColor(k.sib.l) == Black && RootColor(k.sib.r) == Black
    ensures var u := Fill(WithSibling(k, Painted(k.sib, Red)), t);
      Lacking(k.up, u) && Inorder(Plug(k.up, u)) == Inorder(Plug(k, t))
  {
    var w := Painted(k.sib, Red);
    assert RedBlack(k.sib) && RedBlack(w) && BlackHeight(w) == BlackHeight(t);
    assert Inorder(w) == Inorder(k.sib);
    var u := Fill(WithSibling(k, w), t);
    assert RedBlack(Painted(u, Black));
    var h := if k.c == Black then BlackHeight(t) + 2 else BlackHeight(t) + 1;
    assert BlackHeight(u) + 1 == h;
    assert CtxRedBlack(k.up, h, k.c) && CtxRedBlack(k.up, h, Black);
    SameInorder(k.up, Fill(k, t), u);
  }

  /** The colours of the sibling and of its children, the shared leaf counting as black. */
  lemma Nephews(s: set<Node>, k: Ctx, t: Tree, leaf: Node)
    requires At(s, k, t, leaf) && !k.Top? && k.sib.Bin?
    ensures k.sib.n in s && k.sib.n.color == k.sib.c
    ensures k.sib.n.left == RootOf(k.sib.l, leaf) && RootOf(k.sib.l, leaf).color == RootColor(k.sib.l)
    ensures k.sib.n.right == RootOf(k.sib.r, leaf) && RootOf(k.sib.r, leaf).color == RootColor(k.sib.r)
  {
    hide At, Nodes;
    var kw := SiblingCtx(k, t);
    Sidestep(s, k, t, leaf);
    Fields(s, kw, k.sib, leaf);
    DescendLeft(s, kw, k.sib, leaf);
    FocusColor(s, InLeft(kw, k.sib.n, k.sib.c, k.sib.r), k.sib.l, leaf);
    DescendRight(s, kw, k.sib, leaf);
    FocusColor(s, InRight(kw, k.sib.n, k.sib.c, k.sib.l), k.sib.r, leaf);
  }

  /** Bounds the rounds removeFixup has left. */
  ghost function Rounds(k: Ctx, t: Tree): nat {
    if RootColor(t) == Red then 0 else 1 + CtxDepth(k)
  }

  // x is a left child.

  /** The context of x once its red sibling has been rotated above its parent. */
  ghost function SunkLeft(k: Ctx): Ctx
    requires k.InLeft? && k.sib.Bin?
  {
    InLeft(InLeft(k.up, k.sib.n, Black, k.sib.r), k.n, Red, k.sib.l)
  }

  lemma SunkLeftLacking(k: Ctx, t: Tree)
    requires Lacking(k, t) && k.InLeft? && RootColor(k.sib) == Red
    ensures k.sib.l.Bin? && Lacking(SunkLeft(k), t) && RootColor(SunkLeft(k).sib) == Black
    ensures Inorder(Plug(SunkLeft(k), t)) == Inorder(Plug(k, t))
  {
    var w := k.sib;
    assert RedBlack(w) && k.c == Black;
    assert CtxRedBlack(SunkLeft(k).up, BlackHeight(t) + 1, Red);
    var before, after := Fill(k, t), Fill(SunkLeft(k).up, Fill(SunkLeft(k), t));
    assert Inorder(before) == Inorder(t) + [k.n] + (Inorder(w.l) + [w.n] + Inorder(w.r));
    assert Inorder(Fill(SunkLeft(k), t)) == Inorder(t) + [k.n] + Inorder(w.l);
    assert Inorder(after) == (Inorder(t) + [k.n] + Inorder(w.l)) + [w.n] + Inorder(w.r);
    assert Plug(k, t) == Plug(k.up, before) && Plug(SunkLeft(k), t) == Plug(k.up, after);
    SameInorder(k.up, before, after);
  }

  /** The sibling w is red: colour it black and rotate around x's parent. The shared leaf's parent is not disturbed. */
  method SinkLeft(xParent: Node, w: Node, ghost s: set<Node>, ghost k: Ctx, ghost t: Tree, ghost leaf: Node)
    requires At(s, k, t, leaf) && k.InLeft? && xParent == k.n && k.sib.Bin? && k.sib.l.Bin? && w == k.sib.n
    modifies s, leaf`parent
    ensures At(s, SunkLeft(k), t, leaf) && leaf.parent == old(leaf.parent)
  {
    hide At, Plug, Nodes;
    Sidestep(s, k, t, leaf);
    SetColor(w, Black, s, SiblingCtx(k, t), k.sib, leaf);
    ghost var w' := Painted(k.sib, Black);
    StandUp(s, SiblingCtx(k, t), w', leaf);
    SetColor(xParent, Red, s, k.up, Fill(SiblingCtx(k, t), w'), leaf);
    ghost var p := Painted(Fill(SiblingCtx(k, t), w'), Red);
    RotateLeft(xParent, s, k.up, p, leaf);
    Refocus(s, SunkLeft(k).up, Fill(SunkLeft(k), t), leaf);
    Refocus(s, SunkLeft(k), t, leaf);
  }

  /** The sibling once its red inner child has been rotated above it. */
  ghost function SiblingTurnedLeft(w: Tree): Tree
    requires w.Bin? && w.l.Bin?
  {
    Bin(w.l.l, w.l.n, Black, Bin(w.l.r, w.n, Red, w.r))
  }

  lemma SiblingTurnedLeftLacking(k: Ctx, t: Tree)
    requires Lacking(k, t) && k.InLeft? && k.sib.Bin? && k.sib.c == Black
    requires RootColor(k.sib.l) == Red && RootColor(k.sib.r) == Black
    ensures var k' := WithSibling(k, SiblingTurnedLeft(k.sib));
      Lacking(k', t) && k'.sib.c == Black && RootColor(k'.sib.r) == Red && Inorder(Plug(k', t)) == Inorder(Plug(k, t))
  {
    var w, w' := k.sib, SiblingTurnedLeft(k.sib);
    assert RedBlack(w) && RedBlack(w.l) && RedBlack(w'.r);
    assert Inorder(w) == (Inorder(w.l.l) + [w.l.n] + Inorder(w.l.r)) + [w.n] + Inorder(w.r);
    assert Inorder(w') == Inorder(w.l.l) + [w.l.n] + (Inorder(w.l.r) + [w.n] + Inorder(w.r));
    assert Inorder(w) == Inorder(w');
    SameInorder(k.up, Fill(k, t), Fill(WithSibling(k, w'), t));
  }

  /** w's right child is black: colour w red and its left child black, and rotate w right. */
  method TurnSiblingLeft(w: Node, ghost s: set<Node>, ghost k: Ctx, ghost t: Tree, ghost leaf: Node)
    requires At(s, k, t, leaf) && k.InLeft? && k.sib.Bin? && k.sib.l.Bin? && w == k.sib.n
    modifies s, leaf`parent
    ensures At(s, WithSibling(k, SiblingTurnedLeft(k.sib)), t, leaf)
  {
    hide At, Plug, Nodes;
    Sidestep(s, k, t, leaf);
    ghost var kw := SiblingCtx(k, t);
    Stand(s, kw, k.sib, leaf);
    DescendLeft(s, kw, k.sib, leaf);
    Stand(s, InLeft(kw, k.sib.n, k.sib.c, k.sib.r), k.sib.l, leaf);
    SetColor(w.left, Black, s, InLeft(kw, k.sib.n, k.sib.c, k.sib.r), k.sib.l, leaf);
    ghost var w1 := Fill(InLeft(kw, k.sib.n, k.sib.c, k.sib.r), Painted(k.sib.l, Black));
    Refocus(s, InLeft(kw, k.sib.n, k.sib.c, k.sib.r), Painted(k.sib.l, Black), leaf);
    SetColor(w, Red, s, kw, w1, leaf);
    RotateRight(w, s, kw, Painted(w1, Red), leaf);
    SidestepBack(s, k, t, SiblingTurnedLeft(k.sib), leaf);
  }

  /** The subtree once the sibling has been rotated into the place of x's parent. */
  ghost function RaisedLeft(k: Ctx, t: Tree): Tree
    requires k.InLeft? && k.sib.Bin?
  {
    Bin(Bin(t, k.n, Black, k.sib.l), k.sib.n, k.c, Painted(k.sib.r, Black))
  }

  lemma RaisedLeftRedBlack(k: Ctx, t: Tree)
    requires Lacking(k, t) && k.InLeft? && RootColor(t) == Black
    requires k.sib.Bin? && k.sib.c == Black && RootColor(k.sib.r) == Red
    ensures RedBlack(Plug(k.up, RaisedLeft(k, t))) && Inorder(Plug(k.up, RaisedLeft(k, t))) == Inorder(Plug(k, t))
  {
    var w, u := k.sib, RaisedLeft(k, t);
    assert RedBlack(w) && RedBlack(w.r);
    assert RedBlack(u.l) && RedBlack(u.r) && BlackHeight(u.r) == BlackHeight(u.l);
    PlugRedBlack(k.up, u);
    assert Inorder(Fill(k, t)) == Inorder(t) + [k.n] + (Inorder(w.l) + [w.n] + Inorder(w.r));
    assert Inorder(u) == (Inorder(t) + [k.n] + Inorder(w.l)) + [w.n] + Inorder(w.r);
    SameInorder(k.up, Fill(k, t), u);
  }

  /** w's right child is red: w takes the colour of x's parent and its place. */
  method RaiseLeft(xParent: Node, w: Node, ghost s: set<Node>, ghost k: Ctx, ghost t: Tree, ghost leaf: Node)
    requires At(s, k, t, leaf) && k.InLeft? && xParent == k.n && k.sib.Bin? && k.sib.r.Bin? && w == k.sib.n
    modifies s, leaf`parent
    ensures At(s, k.up, RaisedLeft(k, t), leaf)
  {
    hide At, Plug, Nodes;
    Sidestep(s, k, t, leaf);
    StandUp(s, k, t, leaf);
    SetColor(w, xParent.color, s, SiblingCtx(k, t), k.sib, leaf);
    ghost var w' := Painted(k.sib, k.c);
    StandUp(s, SiblingCtx(k, t), w', leaf);
    SetColor(xParent, Black, s, k.up, Fill(SiblingCtx(k, t), w'), leaf);
    ghost var kw := InRight(k.up, k.n, Black, t);
    Refocus(s, kw, w', leaf);
    Stand(s, kw, w', leaf);
    DescendRight(s, kw, w', leaf);
    Stand(s, InRight(kw, w'.n, w'.c, w'.l), w'.r, leaf);
    SetColor(w.right, Black, s, InRight(kw, w'.n, w'.c, w'.l), w'.r, leaf);
    Refocus(s, InRight(kw, w'.n, w'.c, w'.l), Painted(w'.r, Black), leaf);
    ghost var w2 := Fill(InRight(kw, w'.n, w'.c, w'.l), Painted(w'.r, Black));
    Refocus(s, kw, w2, leaf);
    RotateLeft(xParent, s, k.up, Fill(kw, w2), leaf);
  }

  /** One round of the loop when x is a left child; `done` when the tree is red/black again. */
  method RemoveFixupLeft(x: Node, ghost s: set<Node>, ghost k: Ctx, ghost t: Tree, ghost leaf: Node)
    returns (x': Node, done: bool, ghost k': Ctx, ghost t': Tree)
    requires At(s, k, t, leaf) && Lacking(k, t) && RootColor(t) == Black && k.InLeft?
    requires x == RootOf(t, leaf) && x.parent == k.n
    modifies s, leaf`parent
    ensures At(s, k', t', leaf) && Inorder(Plug(k', t')) == Inorder(Plug(k, t))
    ensures done ==> RedBlack(Plug(k', t'))
    ensures !done ==>
      Lacking(k', t') && Rounds(k', t') < Rounds(k, t) && x' == RootOf(t', leaf) && x'.parent == ParentOf(k')
  {
    hide At, Plug, Nodes, RedBlack, CtxRedBlack, Inorder, Lacking;
    var xParent := x.parent;
    k', t' := k, t;
    LackingSibling(k', t');
    StandUp(s, k', t', leaf);
    Nephews(s, k', t', leaf);
    var w := xParent.right;
    if w.color == Red {
      SunkLeftLacking(k', t');
      SinkLeft(xParent, w, s, k', t', leaf);
      k' := SunkLeft(k');
      StandUp(s, k', t', leaf);
      LackingSibling(k', t');
      Nephews(s, k', t', leaf);
      w := xParent.right;
    }
    if w.left.color == Black && w.right.color == Black {
      SiblingRedLacking(k', t');
      Sidestep(s, k', t', leaf);
      SetColor(w, Red, s, SiblingCtx(k', t'), k'.sib, leaf);
      SidestepBack(s, k', t', Painted(k'.sib, Red), leaf);
      k' := WithSibling(k', Painted(k'.sib, Red));
      StandUp(s, k', t', leaf);
      x', done, k', t' := xParent, false, k'.up, Fill(k', t');
    } else {
      if w.right.color == Black {
        SiblingTurnedLeftLacking(k', t');
        TurnSiblingLeft(w, s, k', t', leaf);
        k' := WithSibling(k', SiblingTurnedLeft(k'.sib));
        StandUp(s, k', t', leaf);
        w := xParent.right;
      }
      RaisedLeftRedBlack(k', t');
      RaiseLeft(xParent, w, s, k', t', leaf);
      x', done, k', t' := x, true, k'.up, RaisedLeft(k', t');
    }
  }

  // x is a right child.

  /** The context of x once its red sibling has been rotated above its parent. */
  ghost function SunkRight(k: Ctx): Ctx
    requires k.InRight? && k.sib.Bin?
  {
    InRight(InRight(k.up, k.sib.n, Black, k.sib.l), k.n, Red, k.sib.r)
  }

  lemma SunkRightLacking(k: Ctx, t: Tree)
    requires Lacking(k, t) && k.InRight? && RootColor(k.sib) == Red
    ensures k.sib.r.Bin? && Lacking(SunkRight(k), t) && RootColor(SunkRight(k).sib) == Black
    ensures Inorder(Plug(SunkRight(k), t)) == Inorder(Plug(k, t))
  {
    var w := k.sib;
    assert RedBlack(w) && k.c == Black;
    assert CtxRedBlack(SunkRight(k).up, BlackHeight(t) + 1, Red);
    var before, after := Fill(k, t), Fill(SunkRight(k).up, Fill(SunkRight(k), t));
    assert Inorder(before) == (Inorder(w.l) + [w.n] + Inorder(w.r)) + [k.n] + Inorder(t);
    assert Inorder(Fill(SunkRight(k), t)) == Inorder(w.r) + [k.n] + Inorder(t);
    assert Inorder(after) == Inorder(w.l) + [w.n] + (Inorder(w.r) + [k.n] + Inorder(t));
    assert Plug(k, t) == Plug(k.up, before) && Plug(SunkRight(k), t) == Plug(k.up, after);
    SameInorder(k.up, before, after);
  }

  /** The sibling w is red: colour it black and rotate around x's parent. The shared leaf's parent is not disturbed. */
  method SinkRight(xParent: Node, w: Node, ghost s: set<Node>, ghost k: Ctx, ghost t: Tree, ghost leaf: Node)
    requires At(s, k, t, leaf) && k.InRight? && xParent == k.n && k.sib.Bin? && k.sib.r.Bin? && w == k.sib.n
    modifies s, leaf`parent
    ensures At(s, SunkRight(k), t, leaf) && leaf.parent == old(leaf.parent)
  {
    hide At, Plug, Nodes;
    Sidestep(s, k, t, leaf);
    SetColor(w, Black, s, SiblingCtx(k, t), k.sib, leaf);
    ghost var w' := Painted(k.sib, Black);
    StandUp(s, SiblingCtx(k, t), w', leaf);
    SetColor(xParent, Red, s, k.up, Fill(SiblingCtx(k, t), w'), leaf);
    ghost var p := Painted(Fill(SiblingCtx(k, t), w'), Red);
    RotateRight(xParent, s, k.up, p, leaf);
    Refocus(s, SunkRight(k).up, Fill(SunkRight(k), t), leaf);
    Refocus(s, SunkRight(k), t, leaf);
  }

  /** The sibling once its red inner child has been rotated above it. */
  ghost function SiblingTurnedRight(w: Tree): Tree
    requires w.Bin? && w.r.Bin?
  {
    Bin(Bin(w.l, w.n, Red, w.r.l), w.r.n, Black, w.r.r)
  }

  lemma SiblingTurnedRightLacking(k: Ctx, t: Tree)
    requires Lacking(k, t) && k.InRight? && k.sib.Bin? && k.sib.c == Black
    requires RootColor(k.sib.r) == Red && RootColor(k.sib.l) == Black
    ensures var k' := WithSibling(k, SiblingTurnedRight(k.sib));
      Lacking(k', t) && k'.sib.c == Black && RootColor(k'.sib.l) == Red && Inorder(Plug(k', t)) == Inorder(Plug(k, t))
  {
    var w, w' := k.sib, SiblingTurnedRight(k.sib);
    assert RedBlack(w) && RedBlack(w.r) && RedBlack(w'.l);
    assert Inorder(w) == Inorder(w.l) + [w.n] + (Inorder(w.r.l) + [w.r.n] + Inorder(w.r.r));
    assert Inorder(w') == (Inorder(w.l) + [w.n] + Inorder(w.r.l)) + [w.r.n] + Inorder(w.r.r);
    assert Inorder(w) == Inorder(w');
    SameInorder(k.up, Fill(k, t), Fill(WithSibling(k, w'), t));
  }

  /** w's left child is black: colour w red and its right child black, and rotate w left. */
  method TurnSiblingRight(w: Node, ghost s: set<Node>, ghost k: Ctx, ghost t: Tree, ghost leaf: Node)
    requires At(s, k, t, leaf) && k.InRight? && k.sib.Bin? && k.sib.r.Bin? && w == k.sib.n
    modifies s, leaf`parent
    ensures At(s, WithSibling(k, SiblingTurnedRight(k.sib)), t, leaf)
  {
    hide At, Plug, Nodes;
    Sidestep(s, k, t, leaf);
    ghost var kw := SiblingCtx(k, t);
    Stand(s, kw, k.sib, leaf);
    DescendRight(s, kw, k.sib, leaf);
    Stand(s, InRight(kw, k.sib.n, k.sib.c, k.sib.l), k.sib.r, leaf);
    SetColor(w.right, Black, s, InRight(kw, k.sib.n, k.sib.c, k.sib.l), k.sib.r, leaf);
    ghost var w1 := Fill(InRight(kw, k.sib.n, k.sib.c, k.sib.l), Painted(k.sib.r, Black));
    Refocus(s, InRight(kw, k.sib.n, k.sib.c, k.sib.l), Painted(k.sib.r, Black), leaf);
    SetColor(w, Red, s, kw, w1, leaf);
    RotateLeft(w, s, kw, Painted(w1, Red), leaf);
    SidestepBack(s, k, t, SiblingTurnedRight(k.sib), leaf);
  }

  /** The subtree once the sibling has been rotated into the place of x's parent. */
  ghost function RaisedRight(k: Ctx, t: Tree): Tree
    requires k.InRight? && k.sib.Bin?
  {
    Bin(Painted(k.sib.l, Black), k.sib.n, k.c, Bin(k.sib.r, k.n, Black, t))
  }

  lemma RaisedRightRedBlack(k: Ctx, t: Tree)
    requires Lacking(k, t) && k.InRight? && RootColor(t) == Black
    requires k.sib.Bin? && k.sib.c == Black && RootColor(k.sib.l) == Red
    ensures RedBlack(Plug(k.up, RaisedRight(k, t))) && Inorder(Plug(k.up, RaisedRight(k, t))) == Inorder(Plug(k, t))
  {
    var w, u := k.sib, RaisedRight(k, t);
    assert RedBlack(w) && RedBlack(w.l);
    assert RedBlack(u.r) && RedBlack(u.l) && BlackHeight(u.l) == BlackHeight(u.r);
    PlugRedBlack(k.up, u);
    assert Inorder(Fill(k, t)) == (Inorder(w.l) + [w.n] + Inorder(w.r)) + [k.n] + Inorder(t);
    assert Inorder(u) == Inorder(w.l) + [w.n] + (Inorder(w.r) + [k.n] + Inorder(t));
    SameInorder(k.up, Fill(k, t), u);
  }

  /** w's left child is red: w takes the colour of x's parent and its place. */
  method RaiseRight(xParent: Node, w: Node, ghost s: set<Node>, ghost k: Ctx, ghost t: Tree, ghost leaf: Node)
    requires At(s, k, t, leaf) && k.InRight? && xParent == k.n && k.sib.Bin? && k.sib.l.Bin? && w == k.sib.n
    modifies s, leaf`parent
    ensures At(s, k.up, RaisedRight(k, t), leaf)
  {
    hide At, Plug, Nodes;
    Sidestep(s, k, t, leaf);
    StandUp(s, k, t, leaf);
    SetColor(w, xParent.color, s, SiblingCtx(k, t), k.sib, leaf);
    ghost var w' := Painted(k.sib, k.c);
    StandUp(s, SiblingCtx(k, t), w', leaf);
    SetColor(xParent, Black, s, k.up, Fill(SiblingCtx(k, t), w'), leaf);
    ghost var kw := InLeft(k.up, k.n, Black, t);
    Refocus(s, kw, w', leaf);
    Stand(s, kw, w', leaf);
    DescendLeft(s, kw, w', leaf);
    Stand(s, InLeft(kw, w'.n, w'.c, w'.r), w'.l, leaf);
    SetColor(w.left, Black, s, InLeft(kw, w'.n, w'.c, w'.r), w'.l, leaf);
    Refocus(s, InLeft(kw, w'.n, w'.c, w'.r), Painted(w'.l, Black), leaf);
    ghost var w2 := Fill(InLeft(kw, w'.n, w'.c, w'.r), Painted(w'.l, Black));
    Refocus(s, kw, w2, leaf);
    RotateRight(xParent, s, k.up, Fill(kw, w2), leaf);
  }

  /** One round of the loop when x is a right child; `done` when the tree is red/black again. */
  method RemoveFixupRight(x: Node, ghost s: set<Node>, ghost k: Ctx, ghost t: Tree, ghost leaf: Node)
    returns (x': Node, done: bool, ghost k': Ctx, ghost t': Tree)
    requires At(s, k, t, leaf) && Lacking(k, t) && RootColor(t) == Black && k.InRight?
    requires x == RootOf(t, leaf) && x.parent == k.n
    modifies s, leaf`parent
    ensures At(s, k', t', leaf) && Inorder(Plug(k', t')) == Inorder(Plug(k, t))
    ensures done ==> RedBlack(Plug(k', t'))
    ensures !done ==>
      Lacking(k', t') && Rounds(k', t') < Rounds(k, t) && x' == RootOf(t', leaf) && x'.parent == ParentOf(k')
  {
    hide At, Plug, Nodes, RedBlack, CtxRedBlack, Inorder, Lacking;
    var xParent := x.parent;
    k', t' := k, t;
    LackingSibling(k', t');
    StandUp(s, k', t', leaf);
    Nephews(s, k', t', leaf);
    var w := xParent.left;
    if w.color == Red {
      SunkRightLacking(k', t');
      SinkRight(xParent, w, s, k', t', leaf);
      k' := SunkRight(k');
      StandUp(s, k', t', leaf);
      LackingSibling(k', t');
      Nephews(s, k', t', leaf);
      w := xParent.left;
    }
    if w.left.color == Black && w.right.color == Black {
      SiblingRedLacking(k', t');
      Sidestep(s, k', t', leaf);
      SetColor(w, Red, s, SiblingCtx(k', t'), k'.sib, leaf);
      SidestepBack(s, k', t', Painted(k'.sib, Red), leaf);
      k' := WithSibling(k', Painted(k'.sib, Red));
      StandUp(s, k', t', leaf);
      x', done, k', t' := xParent, false, k'.up, Fill(k', t');
    } else {
      if w.left.color == Black {
        SiblingTurnedRightLacking(k', t');
        TurnSiblingRight(w, s, k', t', leaf);
        k' := WithSibling(k', SiblingTurnedRight(k'.sib));
        StandUp(s, k', t', leaf);
        w := xParent.left;
      }
      RaisedRightRedBlack(k', t');
      RaiseRight(xParent, w, s, k', t', leaf);
      x', done, k', t' := x, true, k'.up, RaisedRight(k', t');
    }
  }

  /**
   * removeFixup(): y has been taken out of the tree and x stands in its place. If y was black, x's subtree is one
   * black node short, and the rules are restored.
   */
  method RemoveFixup(x0: Node, y: Node, ghost s: set<Node>, ghost k0: Ctx, ghost t0: Tree, ghost leaf: Node)
    returns (ghost w: Tree)
    requires At(s, k0, t0, leaf) && x0 == RootOf(t0, leaf) && x0.parent == ParentOf(k0)
    requires Inorder(Plug(k0, t0)) != []
    requires if y.color == Black then Lacking(k0, t0) else RedBlack(Plug(k0, t0))
    modifies s, leaf`parent
    ensures At(s, Top, w, leaf) && w.Bin? && RedBlack(w)
    ensures Inorder(w) == Inorder(Plug(k0, t0))
  {
    hide At, Plug, Nodes, RedBlack, CtxRedBlack, Inorder, Lacking;
    NotEmpty(k0, t0);
    ToTop(s, k0, t0, leaf);
    if y.color != Black {
      w := Plug(k0, t0);
      return;
    }
    var x := x0;
    ghost var k, t := k0, t0;
    FocusColor(s, k, t, leaf);
    while x.parent != null && x.color == Black
      invariant At(s, k, t, leaf) && Lacking(k, t) && x == RootOf(t, leaf)
      invariant x.parent == ParentOf(k) && x.color == RootColor(t) && (t.Bin? ==> t.n in s)
      invariant Inorder(Plug(k, t)) == Inorder(Plug(k0, t0))
      decreases Rounds(k, t)
    {
      LackingSibling(k, t);
      ChildSide(s, k, t, leaf);
      var done;
      if x.IsLeftChild() {
        x, done, k, t := RemoveFixupLeft(x, s, k, t, leaf);
      } else {
        x, done, k, t := RemoveFixupRight(x, s, k, t, leaf);
      }
      FocusColor(s, k, t, leaf);
      if done {
        ToTop(s, k, t, leaf);
        NotEmpty(k, t);
        w := Plug(k, t);
        return;
      }
    }
    NotEmpty(k, t);
    LackingPainted(k, t);
    SetColor(x, Black, s, k, t, leaf);
    ToTop(s, k, Painted(t, Black), leaf);
    w := Plug(k, Painted(t, Black));
  }

  lemma NotEmpty(k: Ctx, t: Tree)
    requires Inorder(Plug(k, t)) != []
    ensures Plug(k, t).Bin? && (k.Top? ==> t.Bin?)
  {}

  lemma FocusColor(s: set<Node>, k: Ctx, t: Tree, leaf: Node)
    requires At(s, k, t, leaf)
    ensures RootOf(t, leaf).color == RootColor(t)
    ensures t.Bin? ==> t.n in s
  {
    Fields(s, k, t, leaf);
  }

  /** At the root, or on a red node, the missing black is made good by painting the node black. */
  lemma LackingPainted(k: Ctx, t: Tree)
    requires Lacking(k, t) && t.Bin? && (k.Top? || t.c == Red)
    ensures RedBlack(Plug(k, Painted(t, Black))) && Plug(k, Painted(t, Black)).Bin?
    ensures Inorder(Plug(k, Painted(t, Black))) == Inorder(Plug(k, t))
  {
    PlugRedBlack(k, Painted(t, Black));
    SameInorder(k, t, Painted(t, Black));
    PlugBin(k, Painted(t, Black));
  }

  /** Unhanging a node with at most one child: harmless if it is red, one black short otherwise. */
  lemma UnhangRedBlack(k: Ctx, u: Tree)
    requires u.Bin? && (u.l.Leaf? || u.r.Leaf?) && RedBlack(Plug(k, u))
    ensures if u.c == Black then Lacking(k, OnlyChild(u)) else RedBlack(Plug(k, OnlyChild(u)))
  {
    PlugRedBlack(k, u);
    PlugRedBlack(k, OnlyChild(u));
  }
}
