/** Link surgery on tree nodes (BinTreeNode.cpp, RBtreeNode.cpp): rotations, trading places, unlinking. */
module BinTreeNode {
  import opened TreeShape

  // ----- Rotations -----

  ghost function RotL(t: Tree): Tree
    requires t.Bin? && t.r.Bin?
  {
    Bin(Bin(t.l, t.n, t.c, t.r.l), t.r.n, t.r.c, t.r.r)
  }

  ghost function RotR(t: Tree): Tree
    requires t.Bin? && t.l.Bin?
  {
    Bin(t.l.l, t.l.n, t.l.c, Bin(t.l.r, t.n, t.c, t.r))
  }

  lemma RotLApart(s: set<Node>, k: Ctx, t: Tree, leaf: Node)
    requires t.Bin? && t.r.Bin?
    ensures Apart(s, k, t, leaf) <==> Apart(s, k, RotL(t), leaf)
  {
    var u := RotL(t);
    assert Nodes(t.r) == Nodes(t.r.l) + {t.r.n} + Nodes(t.r.r);
    assert Nodes(u.l) == Nodes(t.l) + {t.n} + Nodes(t.r.l);
    assert Nodes(u) == Nodes(u.l) + {u.n} + Nodes(u.r);
    assert Nodes(t) == Nodes(u);
    assert Distinct(u.l) <==>
      Distinct(t.l) && Distinct(t.r.l) && t.n !in Nodes(t.l) && t.n !in Nodes(t.r.l) && Nodes(t.l) !! Nodes(t.r.l);
    assert Distinct(u) <==>
      Distinct(u.l) && Distinct(u.r) && u.n !in Nodes(u.l) && u.n !in Nodes(u.r) && Nodes(u.l) !! Nodes(u.r);
    assert Distinct(t) <==> Distinct(u);
  }

  /** Hanging t elsewhere only changes the parent of its root. */
  lemma Rehang(t: Tree, p: Node?, q: Node?, leaf: Node, n: Node)
    requires n in Nodes(t) && Distinct(t)
    ensures LinkAt(t, q, leaf, n) ==
      if n == t.n then LinkAt(t, p, leaf, n).(parent := q) else LinkAt(t, p, leaf, n)
  {}

  /** Filling the hole of k with another node only changes one child link of the hole's parent. */
  lemma Refill(k: Ctx, x: Node, y: Node, leaf: Node, n: Node)
    requires n in CtxNodes(k) && CtxDistinct(k) && x !in CtxNodes(k) && x != leaf
    ensures var f := CtxLinkAt(k, x, leaf, n);
      CtxLinkAt(k, y, leaf, n) ==
        if n == k.n then if f.left == x then f.(left := y) else f.(right := y) else f
  {
    assert k.sib.Bin? ==> k.sib.n in Nodes(k.sib);
  }

  lemma RotLLink(s: set<Node>, k: Ctx, t: Tree, leaf: Node, n: Node)
    requires t.Bin? && t.r.Bin? && Apart(s, k, t, leaf) && Apart(s, k, RotL(t), leaf) && n in s
    ensures var x, y, b, f := t.n, t.r.n, RootOf(t.r.l, leaf), FocusLink(k, t, leaf, n);
      FocusLink(k, RotL(t), leaf, n) ==
        if n == x then f.(parent := y, right := b)
        else if n == y then f.(parent := ParentOf(k), left := x)
        else if n == b then f.(parent := x)
        else if n == ParentOf(k) then if f.left == x then f.(left := y) else f.(right := y)
        else f
  {
    var u := RotL(t);
    assert Nodes(t.r) == Nodes(t.r.l) + {t.r.n} + Nodes(t.r.r);
    assert Nodes(u.l) == Nodes(t.l) + {t.n} + Nodes(t.r.l);
    assert Distinct(t.r) && t.n in s;
    assert t.r.l.Bin? ==> t.r.l.n in Nodes(t.r.l);
    assert !k.Top? ==> k.n in CtxNodes(k);
    if n in CtxNodes(k) {
      Refill(k, t.n, t.r.n, leaf, n);
    } else if n in Nodes(t.r.l) {
      Rehang(t.r.l, t.r.n, t.n, leaf, n);
      assert LinkAt(t, ParentOf(k), leaf, n) == LinkAt(t.r, t.n, leaf, n);
      assert LinkAt(u, ParentOf(k), leaf, n) == LinkAt(u.l, t.r.n, leaf, n);
    } else if n in Nodes(t.r) {
      assert LinkAt(t, ParentOf(k), leaf, n) == LinkAt(t.r, t.n, leaf, n);
    } else {
      assert LinkAt(u, ParentOf(k), leaf, n) == LinkAt(u.l, t.r.n, leaf, n);
    }
  }

  /** x.rotateLeft() turns the subtree t rooted at x into RotL(t), wherever t hangs. */
  method RotateLeft(x: Node, ghost s: set<Node>, ghost k: Ctx, ghost t: Tree, ghost leaf: Node)
    requires At(s, k, t, leaf) && t.Bin? && t.r.Bin? && x == t.n
    modifies s, leaf`parent
    ensures At(s, k, RotL(t), leaf)
    ensures t.r.l.Bin? ==> leaf.parent == old(leaf.parent)
  {
    RotLReady(s, k, t, leaf);
    ghost var h := Snap(s);
    x.RotateLeft(s);
    RotLShape(h, Snap(s), s, k, t, leaf);
  }

  lemma RotLReady(s: set<Node>, k: Ctx, t: Tree, leaf: Node)
    requires At(s, k, t, leaf) && t.Bin? && t.r.Bin?
    ensures t.n in s && t.r.n in s && (t.r.l.Bin? ==> t.r.l.n in s) && (!k.Top? ==> k.n in s) && leaf !in s
    ensures t.n.right == t.r.n && t.r.n.left == RootOf(t.r.l, leaf) && t.n.parent == ParentOf(k)
    ensures t.n != t.r.n && RootOf(t.r.l, leaf) != t.n && RootOf(t.r.l, leaf) != t.r.n
    ensures ParentOf(k) != t.n && ParentOf(k) != t.r.n && ParentOf(k) != RootOf(t.r.l, leaf)
  {
    Fields(s, k, t, leaf);
    Refocus(s, InRight(k, t.n, t.c, t.l), t.r, leaf);
    Fields(s, InRight(k, t.n, t.c, t.l), t.r, leaf);
    assert t.r.l.Bin? ==> t.r.l.n in Nodes(t.r.l);
  }

  lemma RotLShape(h: Heap, h': Heap, s: set<Node>, k: Ctx, t: Tree, leaf: Node)
    requires t.Bin? && t.r.Bin? && Apart(s, k, t, leaf) && Shape(h, k, t, leaf)
    requires LeftRotation(h, h', t.n, t.r.n, RootOf(t.r.l, leaf), ParentOf(k))
    ensures Apart(s, k, RotL(t), leaf) && Shape(h', k, RotL(t), leaf)
  {
    RotLApart(s, k, t, leaf);
    forall n | n in h'
      ensures h'[n] == FocusLink(k, RotL(t), leaf, n)
    {
      RotLLink(s, k, t, leaf, n);
    }
  }

  lemma RotRApart(s: set<Node>, k: Ctx, t: Tree, leaf: Node)
    requires t.Bin? && t.l.Bin?
    ensures Apart(s, k, t, leaf) <==> Apart(s, k, RotR(t), leaf)
  {
    var u := RotR(t);
    assert Nodes(t.l) == Nodes(t.l.r) + {t.l.n} + Nodes(t.l.l);
    assert Nodes(u.r) == Nodes(t.r) + {t.n} + Nodes(t.l.r);
    assert Nodes(u) == Nodes(u.r) + {u.n} + Nodes(u.l);
    assert Nodes(t) == Nodes(u);
    assert Distinct(u.r) <==>
      Distinct(t.r) && Distinct(t.l.r) && t.n !in Nodes(t.r) && t.n !in Nodes(t.l.r) && Nodes(t.r) !! Nodes(t.l.r);
    assert Distinct(u) <==>
      Distinct(u.r) && Distinct(u.l) && u.n !in Nodes(u.r) && u.n !in Nodes(u.l) && Nodes(u.r) !! Nodes(u.l);
    assert Distinct(t) <==> Distinct(u);
  }

  lemma RotRLink(s: set<Node>, k: Ctx, t: Tree, leaf: Node, n: Node)
    requires t.Bin? && t.l.Bin? && Apart(s, k, t, leaf) && Apart(s, k, RotR(t), leaf) && n in s
    ensures var x, y, b, f := t.n, t.l.n, RootOf(t.l.r, leaf), FocusLink(k, t, leaf, n);
      FocusLink(k, RotR(t), leaf, n) ==
        if n == x then f.(parent := y, left := b)
        else if n == y then f.(parent := ParentOf(k), right := x)
        else if n == b then f.(parent := x)
        else if n == ParentOf(k) then if f.right == x then f.(right := y) else f.(left := y)
        else f
  {
    var u := RotR(t);
    assert Nodes(t.l) == Nodes(t.l.r) + {t.l.n} + Nodes(t.l.l);
    assert Nodes(u.r) == Nodes(t.r) + {t.n} + Nodes(t.l.r);
    assert Distinct(t.l) && t.n in s;
    assert t.l.r.Bin? ==> t.l.r.n in Nodes(t.l.r);
    assert !k.Top? ==> k.n in CtxNodes(k);
    if n in CtxNodes(k) {
      Refill(k, t.n, t.l.n, leaf, n);
    } else if n in Nodes(t.l.r) {
      Rehang(t.l.r, t.l.n, t.n, leaf, n);
      assert LinkAt(t, ParentOf(k), leaf, n) == LinkAt(t.l, t.n, leaf, n);
      assert LinkAt(u, ParentOf(k), leaf, n) == LinkAt(u.r, t.l.n, leaf, n);
    } else if n in Nodes(t.l) {
      assert LinkAt(t, ParentOf(k), leaf, n) == LinkAt(t.l, t.n, leaf, n);
    } else {
      assert LinkAt(u, ParentOf(k), leaf, n) == LinkAt(u.r, t.l.n, leaf, n);
    }
  }

  /** x.rotateRight() turns the subtree t rooted at x into RotR(t), wherever t hangs. */
  method RotateRight(x: Node, ghost s: set<Node>, ghost k: Ctx, ghost t: Tree, ghost leaf: Node)
    requires At(s, k, t, leaf) && t.Bin? && t.l.Bin? && x == t.n
    modifies s, leaf`parent
    ensures At(s, k, RotR(t), leaf)
    ensures t.l.r.Bin? ==> leaf.parent == old(leaf.parent)
  {
    RotRReady(s, k, t, leaf);
    ghost var h := Snap(s);
    x.RotateRight(s);
    RotRShape(h, Snap(s), s, k, t, leaf);
  }

  lemma RotRReady(s: set<Node>, k: Ctx, t: Tree, leaf: Node)
    requires At(s, k, t, leaf) && t.Bin? && t.l.Bin?
    ensures t.n in s && t.l.n in s && (t.l.r.Bin? ==> t.l.r.n in s) && (!k.Top? ==> k.n in s) && leaf !in s
    ensures t.n.left == t.l.n && t.l.n.right == RootOf(t.l.r, leaf) && t.n.parent == ParentOf(k)
    ensures t.n != t.l.n && RootOf(t.l.r, leaf) != t.n && RootOf(t.l.r, leaf) != t.l.n
    ensures ParentOf(k) != t.n && ParentOf(k) != t.l.n && ParentOf(k) != RootOf(t.l.r, leaf)
  {
    Fields(s, k, t, leaf);
    Refocus(s, InLeft(k, t.n, t.c, t.r), t.l, leaf);
    Fields(s, InLeft(k, t.n, t.c, t.r), t.l, leaf);
    assert t.l.r.Bin? ==> t.l.r.n in Nodes(t.l.r);
  }

  lemma RotRShape(h: Heap, h': Heap, s: set<Node>, k: Ctx, t: Tree, leaf: Node)
    requires t.Bin? && t.l.Bin? && Apart(s, k, t, leaf) && Shape(h, k, t, leaf)
    requires RightRotation(h, h', t.n, t.l.n, RootOf(t.l.r, leaf), ParentOf(k))
    ensures Apart(s, k, RotR(t), leaf) && Shape(h', k, RotR(t), leaf)
  {
    RotRApart(s, k, t, leaf);
    forall n | n in h'
      ensures h'[n] == FocusLink(k, RotR(t), leaf, n)
    {
      RotRLink(s, k, t, leaf, n);
    }
  }

  // ----- Trading places in a shape -----

  ghost function Renamed(t: Tree, y: Node, z: Node): Tree {
    if t.Leaf? then Leaf
    else Bin(Renamed(t.l, y, z), Traded(y, z, t.n), t.c, Renamed(t.r, y, z))
  }

  ghost function CtxRenamed(k: Ctx, y: Node, z: Node): Ctx {
    match k
    case Top => Top
    case InLeft(up, n, c, sib) => InLeft(CtxRenamed(up, y, z), Traded(y, z, n), c, Renamed(sib, y, z))
    case InRight(up, n, c, sib) => InRight(CtxRenamed(up, y, z), Traded(y, z, n), c, Renamed(sib, y, z))
  }

  /** The members of a once y and z have traded places. */
  ghost function Exchanged(a: set<Node>, y: Node, z: Node): set<Node> {
    (a - {y, z}) + (if y in a then {z} else {}) + (if z in a then {y} else {})
  }

  lemma RenamedNodes(t: Tree, y: Node, z: Node)
    ensures Nodes(Renamed(t, y, z)) == Exchanged(Nodes(t), y, z)
  {}

  lemma CtxRenamedNodes(k: Ctx, y: Node, z: Node)
    ensures CtxNodes(CtxRenamed(k, y, z)) == Exchanged(CtxNodes(k), y, z)
  {
    if !k.Top? {
      RenamedNodes(k.sib, y, z);
    }
  }

  lemma RenamedDistinct(t: Tree, y: Node, z: Node)
    requires Distinct(t)
    ensures Distinct(Renamed(t, y, z))
  {
    if t.Bin? {
      RenamedNodes(t.l, y, z);
      RenamedNodes(t.r, y, z);
    }
  }

  lemma CtxRenamedDistinct(k: Ctx, y: Node, z: Node)
    requires CtxDistinct(k)
    ensures CtxDistinct(CtxRenamed(k, y, z))
  {
    if !k.Top? {
      RenamedDistinct(k.sib, y, z);
      RenamedNodes(k.sib, y, z);
      CtxRenamedNodes(k.up, y, z);
    }
  }

  ghost function TradedLinks(y: Node, z: Node, f: Links): Links {
    Links(Traded(y, z, f.parent), Traded(y, z, f.left), Traded(y, z, f.right), f.color)
  }

  lemma {:induction false} RenamedLink(t: Tree, p: Node?, y: Node, z: Node, leaf: Node, n: Node)
    requires n in Nodes(t) && leaf !in {y, z}
    ensures (Traded(y, z, n) as Node) in Nodes(Renamed(t, y, z))
    ensures LinkAt(Renamed(t, y, z), Traded(y, z, p), leaf, Traded(y, z, n)) == TradedLinks(y, z, LinkAt(t, p, leaf, n))
  {
    RenamedNodes(t, y, z);
    RenamedNodes(t.l, y, z);
    if n == t.n {
    } else if n in Nodes(t.l) {
      RenamedLink(t.l, t.n, y, z, leaf, n);
    } else {
      RenamedLink(t.r, t.n, y, z, leaf, n);
    }
  }

  lemma {:induction false} CtxRenamedLink(k: Ctx, hole: Node, y: Node, z: Node, leaf: Node, n: Node)
    requires n in CtxNodes(k) && leaf !in {y, z}
    ensures (Traded(y, z, n) as Node) in CtxNodes(CtxRenamed(k, y, z))
    ensures CtxLinkAt(CtxRenamed(k, y, z), Traded(y, z, hole), leaf, Traded(y, z, n))
            == TradedLinks(y, z, CtxLinkAt(k, hole, leaf, n))
  {
    CtxRenamedNodes(k, y, z);
    RenamedNodes(k.sib, y, z);
    if n == k.n {
    } else if n in Nodes(k.sib) {
      RenamedLink(k.sib, k.n, y, z, leaf, n);
    } else {
      CtxRenamedLink(k.up, k.n, y, z, leaf, n);
    }
  }

  lemma FocusRenamedLink(k: Ctx, t: Tree, y: Node, z: Node, leaf: Node, n: Node)
    requires n in CtxNodes(k) + Nodes(t) && leaf !in {y, z}
    ensures (Traded(y, z, n) as Node) in CtxNodes(CtxRenamed(k, y, z)) + Nodes(Renamed(t, y, z))
    ensures FocusLink(CtxRenamed(k, y, z), Renamed(t, y, z), leaf, Traded(y, z, n))
            == TradedLinks(y, z, FocusLink(k, t, leaf, n))
  {
    RenamedNodes(t, y, z);
    if n in Nodes(t) {
      RenamedLink(t, ParentOf(k), y, z, leaf, n);
    } else {
      CtxRenamedLink(k, RootOf(t, leaf), y, z, leaf, n);
    }
  }

  lemma ExchangedSets(a: set<Node>, b: set<Node>, y: Node, z: Node)
    requires a !! b && y in a + b && z in a + b
    ensures Exchanged(a, y, z) !! Exchanged(b, y, z) && Exchanged(a, y, z) + Exchanged(b, y, z) == a + b
  {}

  lemma RenamedApart(s: set<Node>, k: Ctx, t: Tree, y: Node, z: Node, leaf: Node)
    requires Apart(s, k, t, leaf) && y in s && z in s
    ensures Apart(s, CtxRenamed(k, y, z), Renamed(t, y, z), leaf)
  {
    RenamedDistinct(t, y, z);
    CtxRenamedDistinct(k, y, z);
    RenamedNodes(t, y, z);
    CtxRenamedNodes(k, y, z);
    hide Exchanged, Nodes, CtxNodes, Renamed, CtxRenamed, Distinct, CtxDistinct;
    ExchangedSets(CtxNodes(k), Nodes(t), y, z);
  }

  lemma RenamedShapeAt(h: Heap, h': Heap, k: Ctx, t: Tree, y: Node, z: Node, leaf: Node, m: Node)
    requires Shape(h, k, t, leaf) && Swapped(h, h', y, z) && leaf !in {y, z} && m in h'
    ensures m in CtxNodes(CtxRenamed(k, y, z)) + Nodes(Renamed(t, y, z))
    ensures h'[m] == FocusLink(CtxRenamed(k, y, z), Renamed(t, y, z), leaf, m)
  {
    var n: Node := Traded(y, z, m);
    assert n in h && SwappedAt(h, h', y, z, n);
    FocusRenamedLink(k, t, y, z, leaf, n);
    hide Nodes, CtxNodes, Renamed, CtxRenamed, FocusLink;
  }

  lemma RenamedShape(h: Heap, h': Heap, s: set<Node>, k: Ctx, t: Tree, y: Node, z: Node, leaf: Node)
    requires Apart(s, k, t, leaf) && Shape(h, k, t, leaf) && Swapped(h, h', y, z)
    ensures Apart(s, CtxRenamed(k, y, z), Renamed(t, y, z), leaf)
    ensures Shape(h', CtxRenamed(k, y, z), Renamed(t, y, z), leaf)
  {
    RenamedApart(s, k, t, y, z, leaf);
    hide Nodes, CtxNodes, Renamed, CtxRenamed, FocusLink, Distinct, CtxDistinct, SwappedAt;
    forall m | m in h'
      ensures h'[m] == FocusLink(CtxRenamed(k, y, z), Renamed(t, y, z), leaf, m)
    {
      RenamedShapeAt(h, h', k, t, y, z, leaf, m);
    }
  }

  // ----- Knit -----

  lemma LinkRange(t: Tree, p: Node?, leaf: Node, n: Node)
    requires n in Nodes(t) && Distinct(t) && p !in Nodes(t) && leaf !in Nodes(t) && p != leaf
    ensures var f := LinkAt(t, p, leaf, n);
      && (n == t.n ==> f.parent == p) && (n != t.n ==> f.parent in Nodes(t))
      && (f.left in Nodes(t) || f.left == leaf) && (f.right in Nodes(t) || f.right == leaf)
      && f.left != t.n && f.right != t.n
  {}

  lemma {:induction false} CtxLinkRange(k: Ctx, hole: Node, leaf: Node, n: Node)
    requires n in CtxNodes(k) && CtxDistinct(k) && leaf !in CtxNodes(k) && hole !in CtxNodes(k)
    ensures var f := CtxLinkAt(k, hole, leaf, n);
      && f.parent in CtxNodes(k) + {null}
      && (f.left in CtxNodes(k) || f.left == leaf || f.left == hole)
      && (f.right in CtxNodes(k) || f.right == leaf || f.right == hole)
      && (hole != leaf && n != k.n ==> f.left != hole && f.right != hole)
  {
    if n != k.n {
      if n in Nodes(k.sib) {
        LinkRange(k.sib, k.n, leaf, n);
      } else {
        CtxLinkRange(k.up, k.n, leaf, n);
      }
    }
  }

  lemma KnitMember(s: set<Node>, k: Ctx, t: Tree, leaf: Node, m: Node)
    requires Apart(s, k, t, leaf) && t.Bin? && m in s
    ensures var f := FocusLink(k, t, leaf, m);
      && (f.parent == t.n <==> m == RootOf(t.l, leaf) || m == RootOf(t.r, leaf))
      && (f.left == t.n || f.right == t.n <==> m == ParentOf(k))
      && (f.left == t.n ==> f.right != t.n)
  {
    if m in CtxNodes(k) {
      CtxLinkRange(k, t.n, leaf, m);
      assert k.sib.Bin? ==> k.sib.n in Nodes(k.sib);
    } else {
      LinkRange(t, ParentOf(k), leaf, m);
      if m in Nodes(t.l) {
        LinkRange(t.l, t.n, leaf, m);
      } else if m in Nodes(t.r) {
        LinkRange(t.r, t.n, leaf, m);
      }
    }
    assert t.l.Bin? ==> t.l.n in Nodes(t.l);
    assert t.r.Bin? ==> t.r.n in Nodes(t.r);
    assert !k.Top? ==> k.n in CtxNodes(k);
  }

  lemma FocusKnit(h: Heap, s: set<Node>, k: Ctx, t: Tree, leaf: Node)
    requires Apart(s, k, t, leaf) && Shape(h, k, t, leaf) && t.Bin?
    ensures Knit(h, t.n, leaf)
  {
    assert h[t.n] == FocusLink(k, t, leaf, t.n);
    assert t.l.Bin? ==> t.l.n in Nodes(t.l);
    assert t.r.Bin? ==> t.r.n in Nodes(t.r);
    assert !k.Top? ==> k.n in CtxNodes(k);
    forall m | m in h
      ensures (h[m].parent == t.n <==> m == h[t.n].left || m == h[t.n].right)
      ensures (h[m].left == t.n || h[m].right == t.n <==> m == h[t.n].parent)
      ensures (h[m].left == t.n ==> h[m].right != t.n)
    {
      KnitMember(s, k, t, leaf, m);
    }
  }

  // ----- Nodes before and after the hole of a context, in order -----

  ghost function Before(k: Ctx): seq<Node> {
    match k
    case Top => []
    case InLeft(up, _, _, _) => Before(up)
    case InRight(up, n, _, sib) => Before(up) + Inorder(sib) + [n]
  }

  ghost function After(k: Ctx): seq<Node> {
    match k
    case Top => []
    case InLeft(up, n, _, sib) => [n] + Inorder(sib) + After(up)
    case InRight(up, _, _, _) => After(up)
  }

  lemma Reassociate(a: seq<Node>, b: seq<Node>, c: seq<Node>, d: seq<Node>, e: seq<Node>)
    ensures a + (b + c + d) + e == a + b + (c + d + e)
    ensures a + (b + c + d) + e == (a + b + c) + d + e
  {}

  lemma {:induction false} PlugInorder(k: Ctx, t: Tree)
    ensures Inorder(Plug(k, t)) == Before(k) + Inorder(t) + After(k)
    decreases k
  {
    if k.InLeft? {
      PlugInorder(k.up, Fill(k, t));
      Reassociate(Before(k.up), Inorder(t), [k.n], Inorder(k.sib), After(k.up));
    } else if k.InRight? {
      PlugInorder(k.up, Fill(k, t));
      Reassociate(Before(k.up), Inorder(k.sib), [k.n], Inorder(t), After(k.up));
    }
  }

  // ----- Painting, hanging and unhanging a node -----

  ghost function Painted(t: Tree, c: Color): Tree {
    if t.Leaf? then Leaf else t.(c := c)
  }

  lemma RecolorShape(h: Heap, h': Heap, s: set<Node>, k: Ctx, t: Tree, c: Color, leaf: Node)
    requires t.Bin? && Apart(s, k, t, leaf) && Shape(h, k, t, leaf)
    requires h'.Keys == h.Keys && forall n :: n in h ==> h'[n] == if n == t.n then h[n].(color := c) else h[n]
    ensures Apart(s, k, t.(c := c), leaf) && Shape(h', k, t.(c := c), leaf)
  {
    forall n | n in h'
      ensures h'[n] == FocusLink(k, t.(c := c), leaf, n)
    {
      assert h[n] == FocusLink(k, t, leaf, n);
    }
  }

  /** Give the root of the focused subtree another colour. */
  method SetColor(x: Node, c: Color, ghost s: set<Node>, ghost k: Ctx, ghost t: Tree, ghost leaf: Node)
    requires At(s, k, t, leaf) && t.Bin? && x == t.n
    modifies x`color
    ensures At(s, k, Painted(t, c), leaf)
  {
    assert x in s;
    ghost var h := Snap(s);
    x.color := c;
    RecolorShape(h, Snap(s), s, k, t, c, leaf);
  }

  lemma HangShape(h: Heap, h': Heap, s: set<Node>, k: Ctx, node: Node, c: Color, leaf: Node)
    requires !k.Top? && Apart(s, k, Leaf, leaf) && Shape(h, k, Leaf, leaf)
    requires node !in s && node != leaf && node.item != Nil && h'.Keys == s + {node}
    requires h'[node] == Links(k.n, leaf, leaf, c)
    requires forall n :: n in h ==>
      h'[n] == if n != k.n then h[n] else if k.InLeft? then h[n].(left := node) else h[n].(right := node)
    ensures Apart(s + {node}, k, Bin(Leaf, node, c, Leaf), leaf) && Shape(h', k, Bin(Leaf, node, c, Leaf), leaf)
  {
    var t := Bin(Leaf, node, c, Leaf);
    assert Nodes(t) == {node};
    forall n | n in h'
      ensures h'[n] == FocusLink(k, t, leaf, n)
    {
      if n in h {
        assert h[n] == FocusLink(k, Leaf, leaf, n);
      }
    }
  }

  /** createNode, then setLeft or setRight: hang a new node in the hole of k. */
  method Hang(parent: Node, node: Node, left: bool, ghost s: set<Node>, ghost k: Ctx, leaf: Node)
    requires At(s, k, Leaf, leaf) && !k.Top? && parent == k.n && left == k.InLeft?
    requires node !in s && node != leaf && node.item != Nil
    modifies node, parent, leaf`parent
    ensures At(s + {node}, k, Bin(Leaf, node, old(node.color), Leaf), leaf)
  {
    ghost var h := Snap(s);
    assert parent in s;
    node.left := leaf;
    leaf.parent := node;
    node.right := leaf;
    leaf.parent := node;
    if left {
      parent.left := node;
      parent.left.parent := parent;
    } else {
      parent.right := node;
      parent.right.parent := parent;
    }
    HangShape(h, Snap(s + {node}), s, k, node, node.color, leaf);
  }

  // ----- Unhanging a node with at most one child -----

  /** The one child of a node that has at most one. */
  ghost function OnlyChild(t: Tree): Tree
    requires t.Bin? && (t.l.Leaf? || t.r.Leaf?)
  {
    if t.l.Leaf? then t.r else t.l
  }

  lemma UnhangApart(s: set<Node>, k: Ctx, t: Tree, leaf: Node)
    requires t.Bin? && (t.l.Leaf? || t.r.Leaf?) && Apart(s, k, t, leaf)
    ensures Apart(s - {t.n}, k, OnlyChild(t), leaf) && Nodes(t) == Nodes(OnlyChild(t)) + {t.n}
  {
    hide CtxDistinct, CtxNodes;
    var u := OnlyChild(t);
    assert Nodes(t) == Nodes(u) + {t.n} && Distinct(u) && t.n !in Nodes(u);
  }

  lemma UnhangShape(h: Heap, h': Heap, s: set<Node>, k: Ctx, t: Tree, leaf: Node)
    requires t.Bin? && (t.l.Leaf? || t.r.Leaf?) && Apart(s, k, t, leaf) && Shape(h, k, t, leaf)
    requires h'.Keys == s - {t.n}
    requires forall n :: n in h' ==>
      h'[n] == if n == RootOf(OnlyChild(t), leaf) then h[n].(parent := ParentOf(k))
               else if n == ParentOf(k) then
                 if k.InLeft? then h[n].(left := RootOf(OnlyChild(t), leaf))
                 else h[n].(right := RootOf(OnlyChild(t), leaf))
               else h[n]
    ensures Apart(s - {t.n}, k, OnlyChild(t), leaf) && Shape(h', k, OnlyChild(t), leaf)
  {
    hide CtxDistinct;
    var u := OnlyChild(t);
    UnhangApart(s, k, t, leaf);
    assert u.Bin? ==> u.n in Nodes(u);
    forall n | n in h'
      ensures h'[n] == FocusLink(k, u, leaf, n)
    {
      assert h[n] == FocusLink(k, t, leaf, n);
      if n in Nodes(u) {
        Rehang(u, t.n, ParentOf(k), leaf, n);
      }
    }
  }

  /** The second half of remove(): y, which has at most one child x, leaves the parent chain. */
  method Unhang(y: Node, ghost s: set<Node>, ghost k: Ctx, ghost t: Tree, ghost leaf: Node) returns (x: Node)
    requires At(s, k, t, leaf) && t.Bin? && (t.l.Leaf? || t.r.Leaf?) && y == t.n
    modifies s, leaf`parent
    ensures At(s - {y}, k, OnlyChild(t), leaf)
    ensures x == RootOf(OnlyChild(t), leaf) && x.parent == ParentOf(k)
    ensures y.color == t.c
  {
    Fields(s, k, t, leaf);
    FocusKnit(Snap(s), s, k, t, leaf);
    ghost var h := Snap(s);
    if y.left.IsLeaf() {
      x := y.right;
    } else {
      x := y.left;
    }
    x.parent := y.parent;
    if y.parent != null {
      if y.IsLeftChild() {
        y.parent.left := x;
      } else {
        y.parent.right := x;
      }
    }
    UnhangShape(h, Snap(s - {y}), s, k, t, leaf);
  }

  // ----- Walking -----

  /** Which child the focused node is, read off its parent's links. */
  lemma ChildSide(s: set<Node>, k: Ctx, t: Tree, leaf: Node)
    requires At(s, k, t, leaf) && RootOf(t, leaf).parent == ParentOf(k)
    requires t.Bin? || (!k.Top? && k.sib.Bin?)
    ensures RootOf(t, leaf).IsLeftChild() <==> k.InLeft?
    ensures RootOf(t, leaf).IsRightChild() <==> k.InRight?
  {
    if !k.Top? {
      Refocus(s, k, t, leaf);
      Fields(s, k.up, Fill(k, t), leaf);
      assert t.Bin? ==> t.n in Nodes(t);
      assert k.sib.Bin? ==> k.sib.n in Nodes(k.sib);
    }
  }

  /** What a step down or up the tree keeps, and what it tells about the node reached. */
  lemma Stand(s: set<Node>, k: Ctx, t: Tree, leaf: Node)
    requires At(s, k, t, leaf) && t.Bin?
    ensures t.n.parent == ParentOf(k) && t.n.left == RootOf(t.l, leaf) && t.n.right == RootOf(t.r, leaf)
    ensures (t.n.IsLeftChild() <==> k.InLeft?) && (t.n.IsRightChild() <==> k.InRight?)
    ensures RootOf(t.l, leaf).IsLeaf() <==> t.l.Leaf?
    ensures RootOf(t.r, leaf).IsLeaf() <==> t.r.Leaf?
    ensures t.n in s && t.n.item != Nil && leaf !in s && t.n.color == t.c
  {
    Fields(s, k, t, leaf);
    ChildSide(s, k, t, leaf);
  }

  /** Where the first and the last node of a subtree are. */
  lemma Ends(t: Tree)
    requires t.Bin?
    ensures Nodes(t.l) <= Nodes(t) && Nodes(t.r) <= Nodes(t) && t.n in Nodes(t) && |Inorder(t)| > 0
    ensures if t.l.Leaf? then Inorder(t)[0] == t.n else |Inorder(t.l)| > 0 && Inorder(t)[0] == Inorder(t.l)[0]
    ensures if t.r.Leaf? then Inorder(t)[|Inorder(t)| - 1] == t.n
            else |Inorder(t.r)| > 0 && Inorder(t)[|Inorder(t)| - 1] == Inorder(t.r)[|Inorder(t.r)| - 1]
  {}

  /** leftMost(): the first node of the subtree. */
  method LeftMost(x: Node, ghost s: set<Node>, ghost k: Ctx, ghost t: Tree, ghost leaf: Node)
    returns (res: Node, ghost k': Ctx, ghost t': Tree)
    requires At(s, k, t, leaf) && t.Bin? && x == t.n
    ensures At(s, k', t', leaf) && t'.Bin? && res == t'.n && t'.l.Leaf?
    ensures Plug(k', t') == Plug(k, t) && Before(k') == Before(k) && res in Nodes(t)
    ensures |Inorder(t)| > 0 && res == Inorder(t)[0]
  {
    hide At, Inorder, Nodes;
    res, k', t' := x, k, t;
    Stand(s, k', t', leaf);
    Ends(t');
    while !res.left.IsLeaf()
      invariant At(s, k', t', leaf) && t'.Bin? && res == t'.n && res.left == RootOf(t'.l, leaf)
      invariant res.left.IsLeaf() <==> t'.l.Leaf?
      invariant Plug(k', t') == Plug(k, t) && Before(k') == Before(k) && Nodes(t') <= Nodes(t)
      invariant |Inorder(t')| > 0 && Inorder(t')[0] == Inorder(t)[0]
      decreases t'
    {
      Ends(t');
      res := res.left;
      k', t' := InLeft(k', t'.n, t'.c, t'.r), t'.l;
      Refocus(s, k', t', leaf);
      Stand(s, k', t', leaf);
    }
    Ends(t');
  }

  /** rightMost(): the last node of the subtree. */
  method RightMost(x: Node, ghost s: set<Node>, ghost k: Ctx, ghost t: Tree, ghost leaf: Node)
    returns (res: Node, ghost k': Ctx, ghost t': Tree)
    requires At(s, k, t, leaf) && t.Bin? && x == t.n
    ensures At(s, k', t', leaf) && t'.Bin? && res == t'.n && t'.r.Leaf?
    ensures Plug(k', t') == Plug(k, t) && After(k') == After(k) && res in Nodes(t)
    ensures |Inorder(t)| > 0 && res == Inorder(t)[|Inorder(t)| - 1]
  {
    hide At, Inorder, Nodes;
    res, k', t' := x, k, t;
    Stand(s, k', t', leaf);
    Ends(t');
    while !res.right.IsLeaf()
      invariant At(s, k', t', leaf) && t'.Bin? && res == t'.n && res.right == RootOf(t'.r, leaf)
      invariant res.right.IsLeaf() <==> t'.r.Leaf?
      invariant Plug(k', t') == Plug(k, t) && After(k') == After(k) && Nodes(t') <= Nodes(t)
      invariant |Inorder(t')| > 0 && Inorder(t')[|Inorder(t')| - 1] == Inorder(t)[|Inorder(t)| - 1]
      decreases t'
    {
      Ends(t');
      res := res.right;
      k', t' := InRight(k', t'.n, t'.c, t'.l), t'.r;
      Refocus(s, k', t', leaf);
      Stand(s, k', t', leaf);
    }
    Ends(t');
  }

  /** The nodes up to and including the root of the focused subtree, in order. */
  ghost function Through(k: Ctx, t: Tree): seq<Node>
    requires t.Bin?
  {
    Before(k) + Inorder(t.l) + [t.n]
  }

  lemma ThroughPrefix(k: Ctx, t: Tree)
    requires t.Bin?
    ensures Inorder(Plug(k, t)) == Through(k, t) + Inorder(t.r) + After(k)
  {
    PlugInorder(k, t);
    Reassociate(Before(k), Inorder(t.l), [t.n], Inorder(t.r), After(k));
  }

  lemma Ascend(s: set<Node>, k: Ctx, t: Tree, leaf: Node)
    requires At(s, k, t, leaf) && !k.Top?
    ensures At(s, k.up, Fill(k, t), leaf) && Plug(k.up, Fill(k, t)) == Plug(k, t)
    ensures k.InRight? ==> Before(k.up) + Inorder(Fill(k, t)) == Before(k) + Inorder(t) && After(k.up) == After(k)
    ensures k.InLeft? ==>
      Through(k.up, Fill(k, t)) == Before(k) + Inorder(t) + [k.n] && After(k) == [k.n] + Inorder(k.sib) + After(k.up)
  {
    Refocus(s, k, t, leaf);
    AscendInorder(k, t);
    hide At, Inorder;
  }

  lemma AscendInorder(k: Ctx, t: Tree)
    requires !k.Top?
    ensures k.InRight? ==> Before(k.up) + Inorder(Fill(k, t)) == Before(k) + Inorder(t)
    ensures k.InLeft? ==> Inorder(Fill(k, t)) + After(k.up) == Inorder(t) + After(k)
  {
    if k.InRight? {
      assert Before(k.up) + (Inorder(k.sib) + [k.n] + Inorder(t)) == Before(k) + Inorder(t);
    } else {
      assert (Inorder(t) + [k.n] + Inorder(k.sib)) + After(k.up) == Inorder(t) + ([k.n] + Inorder(k.sib) + After(k.up));
    }
  }

  lemma DescendRight(s: set<Node>, k: Ctx, t: Tree, leaf: Node)
    requires At(s, k, t, leaf) && t.Bin?
    ensures var k' := InRight(k, t.n, t.c, t.l);
      At(s, k', t.r, leaf) && Plug(k', t.r) == Plug(k, t) && Before(k') == Through(k, t)
  {
    Refocus(s, InRight(k, t.n, t.c, t.l), t.r, leaf);
  }

  /**
   * next(): the in-order successor, or null if there is none. The walk climbs while the subtree it stands on
   * ends with x.
   */
  method Next(x: Node, ghost s: set<Node>, ghost k: Ctx, ghost t: Tree, ghost leaf: Node)
    returns (res: Node?, ghost k': Ctx, ghost t': Tree)
    requires At(s, k, t, leaf) && t.Bin? && x == t.n
    ensures At(s, k', t', leaf) && Plug(k', t') == Plug(k, t)
    ensures var all, i := Inorder(Plug(k, t)), |Through(k, t)|;
      res == if i < |all| then all[i] else null
    ensures res != null ==> t'.Bin? && res == t'.n && Through(k', t') == Through(k, t) + [res]
    ensures t.r.Bin? ==> res != null && t'.l.Leaf? && res in Nodes(t.r)
  {
    hide At, Plug, Nodes;
    Stand(s, k, t, leaf);
    ThroughPrefix(k, t);
    if !x.right.IsLeaf() {
      DescendRight(s, k, t, leaf);
      res, k', t' := LeftMost(x.right, s, InRight(k, t.n, t.c, t.l), t.r, leaf);
    } else {
      res, k', t' := Climb(x, s, k, t, leaf);
    }
  }

  /** next() for a node without right child: climb to the first ancestor that is to the right. */
  method Climb(x: Node, ghost s: set<Node>, ghost k: Ctx, ghost t: Tree, ghost leaf: Node)
    returns (res: Node?, ghost k': Ctx, ghost t': Tree)
    requires At(s, k, t, leaf) && t.Bin? && x == t.n && t.r.Leaf?
    ensures At(s, k', t', leaf) && Plug(k', t') == Plug(k, t)
    ensures var all, i := Inorder(Plug(k, t)), |Through(k, t)|;
      res == if i < |all| then all[i] else null
    ensures res != null ==> t'.Bin? && res == t'.n && Through(k', t') == Through(k, t) + [res]
  {
    hide At, Plug, Nodes;
    var y := x;
    k', t' := k, t;
    Stand(s, k, t, leaf);
    ThroughPrefix(k, t);
    while y.IsRightChild()
      invariant At(s, k', t', leaf) && t'.Bin? && y == t'.n && y.parent == ParentOf(k')
      invariant y.IsRightChild() <==> k'.InRight?
      invariant y.IsLeftChild() <==> k'.InLeft?
      invariant Plug(k', t') == Plug(k, t) && Before(k') + Inorder(t') == Through(k, t) && After(k') == After(k)
      decreases k'
    {
      Ascend(s, k', t', leaf);
      k', t' := k'.up, Fill(k', t');
      y := y.parent;
      Stand(s, k', t', leaf);
    }
    if y.IsLeftChild() {
      Ascend(s, k', t', leaf);
      res := y.parent;
      k', t' := k'.up, Fill(k', t');
    } else {
      res := null;
    }
  }

  /** The nodes from the root of the focused subtree on, in order. */
  ghost function From(k: Ctx, t: Tree): seq<Node>
    requires t.Bin?
  {
    [t.n] + Inorder(t.r) + After(k)
  }

  lemma FromSuffix(k: Ctx, t: Tree)
    requires t.Bin?
    ensures Inorder(Plug(k, t)) == Before(k) + Inorder(t.l) + From(k, t)
  {
    PlugInorder(k, t);
    Reassociate(Before(k), Inorder(t.l), [t.n], Inorder(t.r), After(k));
  }

  lemma AscendBack(s: set<Node>, k: Ctx, t: Tree, leaf: Node)
    requires At(s, k, t, leaf) && !k.Top?
    ensures k.InLeft? ==> Inorder(Fill(k, t)) + After(k.up) == Inorder(t) + After(k) && Before(k.up) == Before(k)
    ensures k.InRight? ==>
      From(k.up, Fill(k, t)) == [k.n] + Inorder(t) + After(k) && Before(k) == Before(k.up) + Inorder(k.sib) + [k.n]
  {
    AscendInorder(k, t);
  }

  lemma DescendLeft(s: set<Node>, k: Ctx, t: Tree, leaf: Node)
    requires At(s, k, t, leaf) && t.Bin?
    ensures var k' := InLeft(k, t.n, t.c, t.r);
      At(s, k', t.l, leaf) && Plug(k', t.l) == Plug(k, t) && After(k') == From(k, t)
  {
    Refocus(s, InLeft(k, t.n, t.c, t.r), t.l, leaf);
  }

  /** prev(): the in-order predecessor, or null if there is none. */
  method Prev(x: Node, ghost s: set<Node>, ghost k: Ctx, ghost t: Tree, ghost leaf: Node)
    returns (res: Node?, ghost k': Ctx, ghost t': Tree)
    requires At(s, k, t, leaf) && t.Bin? && x == t.n
    ensures At(s, k', t', leaf) && Plug(k', t') == Plug(k, t)
    ensures var earlier := Before(k) + Inorder(t.l);
      res == if earlier == [] then null else earlier[|earlier| - 1]
    ensures res != null ==> t'.Bin? && res == t'.n && From(k', t') == [res] + From(k, t)
    ensures t.l.Bin? ==> res != null && t'.r.Leaf? && res in Nodes(t.l)
  {
    hide At, Plug, Nodes;
    Stand(s, k, t, leaf);
    FromSuffix(k, t);
    if !x.left.IsLeaf() {
      DescendLeft(s, k, t, leaf);
      res, k', t' := RightMost(x.left, s, InLeft(k, t.n, t.c, t.r), t.l, leaf);
    } else {
      res, k', t' := ClimbBack(x, s, k, t, leaf);
    }
  }

  /** prev() for a node without left child: climb to the first ancestor that is to the left. */
  method ClimbBack(x: Node, ghost s: set<Node>, ghost k: Ctx, ghost t: Tree, ghost leaf: Node)
    returns (res: Node?, ghost k': Ctx, ghost t': Tree)
    requires At(s, k, t, leaf) && t.Bin? && x == t.n && t.l.Leaf?
    ensures At(s, k', t', leaf) && Plug(k', t') == Plug(k, t)
    ensures var earlier := Before(k) + Inorder(t.l);
      res == if earlier == [] then null else earlier[|earlier| - 1]
    ensures res != null ==> t'.Bin? && res == t'.n && From(k', t') == [res] + From(k, t)
  {
    hide At, Plug, Nodes;
    var y := x;
    k', t' := k, t;
    Stand(s, k, t, leaf);
    FromSuffix(k, t);
    while y.IsLeftChild()
      invariant At(s, k', t', leaf) && t'.Bin? && y == t'.n && y.parent == ParentOf(k')
      invariant y.IsRightChild() <==> k'.InRight?
      invariant y.IsLeftChild() <==> k'.InLeft?
      invariant Plug(k', t') == Plug(k, t) && Inorder(t') + After(k') == From(k, t) && Before(k') == Before(k)
      decreases k'
    {
      Ascend(s, k', t', leaf);
      AscendBack(s, k', t', leaf);
      k', t' := k'.up, Fill(k', t');
      y := y.parent;
      Stand(s, k', t', leaf);
    }
    if y.IsRightChild() {
      Ascend(s, k', t', leaf);
      AscendBack(s, k', t', leaf);
      res := y.parent;
      k', t' := k'.up, Fill(k', t');
    } else {
      res := null;
    }
  }

  // ----- remove() -----

  /**
   * Going on to the successor, and back from there to the predecessor, ends at the same node; and the other way round.
   */
  lemma NextThenPrev(k: Ctx, t: Tree, k': Ctx, t': Tree, k'': Ctx, t'': Tree)
    requires t.Bin? && t'.Bin? && t''.Bin? && Plug(k', t') == Plug(k, t) == Plug(k'', t'')
    requires Through(k', t') == Through(k, t) + [t'.n] && From(k'', t'') == [t''.n] + From(k', t')
    ensures t''.n == t.n
  {
    hide Plug, Inorder;
    var all := Inorder(Plug(k, t));
    ThroughPrefix(k, t);
    ThroughPrefix(k', t');
    FromSuffix(k', t');
    FromSuffix(k'', t'');
    var i := |Through(k, t)| - 1;
    assert all[i] == t.n && |From(k', t')| == |all| - i - 1 && |From(k'', t'')| == |all| - i;
    assert all[i] == t''.n;
  }

  lemma PrevThenNext(k: Ctx, t: Tree, k': Ctx, t': Tree, k'': Ctx, t'': Tree)
    requires t.Bin? && t'.Bin? && t''.Bin? && Plug(k', t') == Plug(k, t) == Plug(k'', t'')
    requires From(k', t') == [t'.n] + From(k, t) && Through(k'', t'') == Through(k', t') + [t''.n]
    ensures t''.n == t.n
  {
    hide Plug, Inorder;
    var all := Inorder(Plug(k, t));
    ThroughPrefix(k', t');
    ThroughPrefix(k'', t'');
    FromSuffix(k, t);
    FromSuffix(k', t');
    var i := |all| - |From(k, t)|;
    assert all[i] == t.n && |Through(k', t')| == i;
    assert all[i] == t''.n;
  }

  /** s without its first z. */
  ghost function Without(s: seq<Node>, z: Node): seq<Node> {
    if s == [] then [] else if s[0] == z then s[1..] else [s[0]] + Without(s[1..], z)
  }

  /** A node y below z on its right, and without left child, trades places with z. */
  method TradePlaces(
      y: Node, z: Node,
      ghost s: set<Node>, ghost ky: Ctx, ghost ty: Tree, ghost kz: Ctx, ghost tz: Tree, ghost leaf: Node)
    requires At(s, ky, ty, leaf) && ty.Bin? && y == ty.n && ty.l.Leaf?
    requires At(s, kz, tz, leaf) && tz.Bin? && z == tz.n && y in Nodes(tz.r)
    modifies s, leaf`parent
    ensures At(s, CtxRenamed(ky, y, z), Renamed(ty, y, z), leaf)
  {
    hide Knit, Nodes, Shape, Swapped, Distinct, CtxDistinct;
    TradeReady(s, ky, ty, kz, tz, leaf);
    ghost var h := Snap(s);
    y.SwapWith(z, s, leaf);
    RenamedShape(h, Snap(s), s, ky, ty, y, z, leaf);
  }

  lemma TradeReady(s: set<Node>, ky: Ctx, ty: Tree, kz: Ctx, tz: Tree, leaf: Node)
    requires At(s, ky, ty, leaf) && ty.Bin? && ty.l.Leaf?
    requires At(s, kz, tz, leaf) && tz.Bin? && ty.n in Nodes(tz.r)
    ensures var y, z := ty.n, tz.n;
      && Knit(Snap(s), y, leaf) && Knit(Snap(s), z, leaf) && y in s && z in s
      && y != z && z.parent != y && (y.parent == z ==> z.right == y && z.parent !in {y.left, y.right})
      && {y.left, y.right, z.left, z.right} <= s + {leaf}
  {
    var h := Snap(s);
    FocusKnit(h, s, ky, ty, leaf);
    FocusKnit(h, s, kz, tz, leaf);
    hide Knit;
    BelowRight(h, s, ky, ty, kz, tz, leaf);
    assert ty.n in s && tz.n in s;
  }

  lemma BelowRight(h: Heap, s: set<Node>, ky: Ctx, ty: Tree, kz: Ctx, tz: Tree, leaf: Node)
    requires Apart(s, ky, ty, leaf) && Shape(h, ky, ty, leaf) && Apart(s, kz, tz, leaf) && Shape(h, kz, tz, leaf)
    requires ty.Bin? && ty.l.Leaf? && tz.Bin? && ty.n in Nodes(tz.r)
    requires Knit(h, tz.n, leaf) && Knit(h, ty.n, leaf)
    ensures var y, z := ty.n, tz.n;
      && y != z && h[z].parent != y && (h[y].parent == z ==> h[z].right == y)
      && h[z].parent !in {h[y].left, h[y].right}
      && {h[y].left, h[y].right, h[z].left, h[z].right} <= s + {leaf}
  {
    var y, z := ty.n, tz.n;
    assert h[y] == FocusLink(kz, tz, leaf, y) == LinkAt(tz.r, z, leaf, y);
    assert h[z] == FocusLink(kz, tz, leaf, z);
    LinkRange(tz.r, z, leaf, y);
    assert !kz.Top? ==> kz.n in CtxNodes(kz);
    assert tz.l.Bin? ==> tz.l.n in Nodes(tz.l);
    assert tz.r.n in Nodes(tz.r);
  }

  lemma {:induction false} WithoutAt(a: seq<Node>, z: Node, b: seq<Node>)
    requires z !in a
    ensures Without(a + [z] + b, z) == a + b
  {
    var s := a + [z] + b;
    if a == [] {
      assert s == [z] + b;
    } else {
      assert s[0] == a[0] && s[1..] == a[1..] + [z] + b;
      WithoutAt(a[1..], z, b);
      assert a + b == [a[0]] + (a[1..] + b);
    }
  }

  lemma InorderMembers(t: Tree, n: Node)
    ensures n in Inorder(t) <==> n in Nodes(t)
  {}

  lemma {:induction false} BeforeMembers(k: Ctx, n: Node)
    ensures n in Before(k) || n in After(k) ==> n in CtxNodes(k)
  {
    if !k.Top? {
      BeforeMembers(k.up, n);
      InorderMembers(k.sib, n);
    }
  }

  lemma {:induction false} BeforeOrAfter(k: Ctx, n: Node)
    requires CtxDistinct(k) && n in Before(k)
    ensures n !in After(k)
  {
    InorderMembers(k.sib, n);
    BeforeMembers(k.up, n);
    BeforeMembers(k.up, k.n);
    if n in Before(k.up) {
      BeforeOrAfter(k.up, n);
    }
  }

  lemma WithoutAmid(a: seq<Node>, l: seq<Node>, z: Node, r: seq<Node>, b: seq<Node>)
    requires z !in a && z !in l
    ensures Without(a + (l + [z] + r) + b, z) == a + (l + r) + b
  {
    assert a + (l + [z] + r) + b == (a + l) + [z] + (r + b);
    WithoutAt(a + l, z, r + b);
    assert a + (l + r) + b == (a + l) + (r + b);
  }

  /** Unhanging the root of the focused subtree takes just that node out of the in-order sequence. */
  lemma UnhangInorder(s: set<Node>, k: Ctx, t: Tree, leaf: Node)
    requires t.Bin? && (t.l.Leaf? || t.r.Leaf?) && Apart(s, k, t, leaf)
    ensures Inorder(Plug(k, OnlyChild(t))) == Without(Inorder(Plug(k, t)), t.n)
  {
    PlugInorder(k, t);
    PlugInorder(k, OnlyChild(t));
    BeforeMembers(k, t.n);
    InorderMembers(t.l, t.n);
    assert Inorder(OnlyChild(t)) == Inorder(t.l) + Inorder(t.r);
    hide Before, After, Plug;
    WithoutAmid(Before(k), Inorder(t.l), t.n, Inorder(t.r), After(k));
  }

  ghost function RenamedSeq(s: seq<Node>, y: Node, z: Node): (r: seq<Node>)
    ensures |r| == |s|
    ensures forall i :: 0 <= i < |s| ==> r[i] == Traded(y, z, s[i])
  {
    seq(|s|, i requires 0 <= i < |s| => Traded(y, z, s[i]) as Node)
  }

  lemma RenamedInorder(t: Tree, y: Node, z: Node)
    ensures Inorder(Renamed(t, y, z)) == RenamedSeq(Inorder(t), y, z)
  {}

  lemma {:induction false} PlugRenamed(k: Ctx, t: Tree, y: Node, z: Node)
    ensures Plug(CtxRenamed(k, y, z), Renamed(t, y, z)) == Renamed(Plug(k, t), y, z)
    decreases k
  {
    if !k.Top? {
      PlugRenamed(k.up, Fill(k, t), y, z);
    }
  }

  /** When z comes right before y, trading their places and dropping z is dropping z. */
  lemma TradeThenDrop(a: seq<Node>, z: Node, y: Node, b: seq<Node>)
    requires y !in a && z !in a && y !in b && z !in b && y != z
    ensures Without(RenamedSeq(a + [z] + [y] + b, y, z), z) == Without(a + [z] + [y] + b, z)
  {
    hide Without;
    assert RenamedSeq(a + [z] + [y] + b, y, z) == (a + [y]) + [z] + b;
    WithoutAt(a + [y], z, b);
    assert a + [z] + [y] + b == a + [z] + ([y] + b);
    WithoutAt(a, z, [y] + b);
    assert (a + [y]) + b == a + ([y] + b);
  }

  lemma SplitAfter(p: seq<Node>, q: seq<Node>, y: Node, r: seq<Node>, f: seq<Node>)
    requires p + [] + [y] == q + [y]
    ensures p == q && p + [] + [y] + r + f == q + [y] + (r + f)
  {
    assert p == (p + [] + [y])[..|p|] && q == (q + [y])[..|q|];
  }

  lemma NodesOnce(s: set<Node>, k: Ctx, t: Tree, leaf: Node, n: Node)
    requires Apart(s, k, t, leaf) && t.Bin?
    ensures n == t.n || n in Before(k) ==> n !in Inorder(t.r) && n !in After(k)
    ensures n == t.n ==> n !in Before(k) && n !in Inorder(t.l)
  {
    BeforeMembers(k, n);
    InorderMembers(t.l, n);
    InorderMembers(t.r, n);
    if n in Before(k) {
      BeforeOrAfter(k, n);
    }
  }

  /** In order, y comes right after z, and neither occurs again. */
  lemma TradeOrder(s: set<Node>, ky: Ctx, ty: Tree, kz: Ctx, tz: Tree, leaf: Node)
    requires Apart(s, ky, ty, leaf) && Apart(s, kz, tz, leaf) && Plug(ky, ty) == Plug(kz, tz)
    requires ty.Bin? && ty.l.Leaf? && tz.Bin? && Through(ky, ty) == Through(kz, tz) + [ty.n]
    ensures var a, b := Before(kz) + Inorder(tz.l), Inorder(ty.r) + After(ky);
      Inorder(Plug(kz, tz)) == a + [tz.n] + [ty.n] + b && !(ty.n in a || tz.n in a || ty.n in b || tz.n in b)
  {
    ThroughPrefix(ky, ty);
    SplitAfter(Before(ky), Through(kz, tz), ty.n, Inorder(ty.r), After(ky));
    NodesOnce(s, ky, ty, leaf, ty.n);
    NodesOnce(s, ky, ty, leaf, tz.n);
    NodesOnce(s, kz, tz, leaf, tz.n);
    hide Apart, Plug, Before, After;
  }

  /** The shape after z and y have traded places, z being the root focused on: z leaves, y stays. */
  lemma TradeInorder(s: set<Node>, ky: Ctx, ty: Tree, kz: Ctx, tz: Tree, leaf: Node)
    requires Apart(s, ky, ty, leaf) && Apart(s, kz, tz, leaf) && Plug(ky, ty) == Plug(kz, tz)
    requires ty.Bin? && ty.l.Leaf? && tz.Bin? && ty.n != tz.n && Through(ky, ty) == Through(kz, tz) + [ty.n]
    ensures var k, t := CtxRenamed(ky, ty.n, tz.n), Renamed(ty, ty.n, tz.n);
      && t.n == tz.n && t.l.Leaf? && Plug(k, t) == Renamed(Plug(kz, tz), ty.n, tz.n)
      && Without(Inorder(Plug(k, t)), tz.n) == Without(Inorder(Plug(kz, tz)), tz.n)
  {
    var y, z := ty.n, tz.n;
    PlugRenamed(ky, ty, y, z);
    RenamedInorder(Plug(ky, ty), y, z);
    TradeOrder(s, ky, ty, kz, tz, leaf);
    hide Inorder, Plug, Before, After;
    TradeThenDrop(Before(kz) + Inorder(tz.l), z, y, Inorder(ty.r) + After(ky));
  }

  lemma RenamedSelf(t: Tree, z: Node)
    ensures Renamed(t, z, z) == t
  {}

  /**
   * remove(): take z out of the tree. If z has two children it first trades places with its successor m (otherwise
   * m is z itself), so that it is the node z, not another one, that leaves. u is the subtree z ends up at the root
   * of; x, the root of its only child, takes its place, and x's parent link is right even when x is the shared leaf.
   */
  method Remove(z: Node, ghost s: set<Node>, ghost k: Ctx, ghost t: Tree, ghost leaf: Node)
    returns (x: Node, y: Node, ghost m: Node, ghost k': Ctx, ghost u: Tree)
    requires At(s, k, t, leaf) && t.Bin? && z == t.n
    modifies s, leaf`parent
    ensures y == z && u.Bin? && (u.l.Leaf? || u.r.Leaf?) && u.n == z && z.color == u.c
    ensures At(s - {z}, k', OnlyChild(u), leaf) && x == RootOf(OnlyChild(u), leaf) && x.parent == ParentOf(k')
    ensures Plug(k', u) == Renamed(Plug(k, t), m, z)
    ensures Inorder(Plug(k', OnlyChild(u))) == Without(Inorder(Plug(k, t)), z)
  {
    hide At, Nodes, Plug, Inorder;
    Stand(s, k, t, leaf);
    if z.left.IsLeaf() || z.right.IsLeaf() {
      y, m, k', u := z, z, k, t;
      RenamedSelf(Plug(k, t), z);
    } else {
      ghost var ty;
      var next;
      next, k', ty := Next(z, s, k, t, leaf);
      m := next;
      FocusApart(s, k, t, leaf);
      FocusApart(s, k', ty, leaf);
      TradeInorder(s, k', ty, k, t, leaf);
      TradePlaces(next, z, s, k', ty, k, t, leaf);
      y := z;
      k', u := CtxRenamed(k', m, z), Renamed(ty, m, z);
    }
    FocusApart(s, k', u, leaf);
    UnhangInorder(s, k', u, leaf);
    x := Unhang(y, s, k', u, leaf);
  }

  lemma FocusApart(s: set<Node>, k: Ctx, t: Tree, leaf: Node)
    requires At(s, k, t, leaf)
    ensures Apart(s, k, t, leaf)
    ensures t.Bin? ==> t.n !in Nodes(t.l) && t.n !in Nodes(t.r)
  {}
}
