/** The nodes of a binary tree (BinTreeNode.h, RBtreeNode.h), and the tree shapes their links spell out. */
module TreeShape {
  import opened Objects

  datatype Color = Black | Red

  /** The `_object` pointer: null (the shared leaf), a contained object, or the `maxObject` sentinel. */
  datatype Item = Nil | Val(value: Object) | MaxObject

  /** The pointers and the colour of one node. */
  datatype Links = Links(parent: Node?, left: Node?, right: Node?, color: Color)

  type Heap = map<Node, Links>

  class Node {
    var parent: Node?
    var left: Node?
    var right: Node?
    var color: Color
    const item: Item

    constructor (item: Item, color: Color)
      ensures this.item == item && this.color == color
      ensures parent == null && left == null && right == null
    {
      this.parent, this.left, this.right := null, null, null;
      this.item, this.color := item, color;
    }

    predicate IsLeaf() {
      item == Nil
    }

    predicate IsLeftChild()
      reads this, parent
    {
      parent != null && parent.left == this
    }

    predicate IsRightChild()
      reads this, parent
    {
      parent != null && parent.right == this
    }

    function Sibling(): Node?
      reads this, parent
    {
      if parent == null then null else if this == parent.left then parent.right else parent.left
    }

    /** rotateLeft at the level of pointers: only four nodes change. */
    method RotateLeft(ghost s: set<Node>)
      requires right != null && right.left != null && right != this && right.left != this && right.left != right
      requires parent != this && parent != right && parent != right.left
      modifies this`parent, this`right, right`parent, right`left, right.left`parent
      modifies if parent != null then {parent} else {}
      ensures LeftRotation(old(Snap(s)), Snap(s), this, old(right), old(right.left), old(parent))
    {
      var x := this;
      var y := x.right;

      // the inner subtree changes sides
      x.right := y.left;
      y.left.parent := x;

      // y hangs where x hung
      y.parent := x.parent;
      if x.parent != null {
        if x == x.parent.left {
          x.parent.left := y;
        } else {
          x.parent.right := y;
        }
      }

      // and x below y
      y.left := x;
      x.parent := y;
    }

    /** rotateRight at the level of pointers. */
    method RotateRight(ghost s: set<Node>)
      requires left != null && left.right != null && left != this && left.right != this && left.right != left
      requires parent != this && parent != left && parent != left.right
      modifies this`parent, this`left, left`parent, left`right, left.right`parent
      modifies if parent != null then {parent} else {}
      ensures RightRotation(old(Snap(s)), Snap(s), this, old(left), old(left.right), old(parent))
    {
      var x := this;
      var y := x.left;

      // the inner subtree changes sides
      x.left := y.right;
      y.right.parent := x;

      // y hangs where x hung
      y.parent := x.parent;
      if x.parent != null {
        if x == x.parent.right {
          x.parent.right := y;
        } else {
          x.parent.left := y;
        }
      }

      // and x below y
      y.right := x;
      x.parent := y;
    }

    /** swapWith at the level of pointers, for a node that is the right child of rhs. */
    method SwapWithParent(rhs: Node, ghost s: set<Node>)
      requires parent == rhs && rhs.right == this && rhs.parent !in {this, rhs, rhs.left, left, right}
      requires null !in {left, right, rhs.left} && {left, right, rhs.left} !! {this, rhs}
      requires rhs.left in s ==> rhs.left !in {left, right}
      modifies this, rhs, left`parent, right`parent, rhs.left`parent, if rhs.parent != null then {rhs.parent} else {}
      ensures AdjacentSwap(old(Snap(s)), Snap(s), this, rhs)
    {
      var lhs := this;
      var rhsIsLC := rhs.IsLeftChild();
      lhs.parent := rhs.parent;
      rhs.parent := lhs;
      lhs.left, rhs.left := rhs.left, lhs.left;
      var tmp := lhs.right;
      lhs.right := rhs;
      rhs.right := tmp;

      // the place above, which held rhs
      if lhs.parent != null {
        if rhsIsLC {
          lhs.parent.left := lhs;
        } else {
          lhs.parent.right := lhs;
        }
      }

      // the children, the shared leaf possibly among them
      lhs.left.parent := lhs;
      lhs.right.parent := lhs;
      rhs.left.parent := rhs;
      rhs.right.parent := rhs;
      lhs.color, rhs.color := rhs.color, lhs.color;
    }

    /** swapWith at the level of pointers, for two nodes neither of which is the parent of the other. */
    method SwapWithOther(rhs: Node, ghost s: set<Node>)
      requires this != rhs && parent !in {rhs, this} && rhs.parent !in {rhs, this}
      requires null !in {left, right, rhs.left, rhs.right} && {left, right, rhs.left, rhs.right} !! {this, rhs}
      requires (rhs.left in s ==> rhs.left !in {left, right}) && (rhs.right in s ==> rhs.right !in {left, right})
      requires parent != null && parent == rhs.parent ==> IsLeftChild() != rhs.IsLeftChild()
      requires this in s && rhs in s
      modifies this, rhs, left`parent, right`parent, rhs.left`parent, rhs.right`parent
      modifies if parent != null then {parent} else {}, if rhs.parent != null then {rhs.parent} else {}
      ensures DistantSwap(old(Snap(s)), Snap(s), this, rhs)
    {
      ghost var h0 := Snap(s);
      TradeFields(rhs, s);
      ghost var h1 := Snap(s);
      assert left == h1[this].left && right == h1[this].right;
      AdoptBoth(rhs, s);
    }

    method TradeFields(rhs: Node, ghost s: set<Node>)
      requires this != rhs && parent !in {rhs, this} && rhs.parent !in {rhs, this}
      requires parent != null && parent == rhs.parent ==> IsLeftChild() != rhs.IsLeftChild()
      modifies this, rhs
      modifies if parent != null then {parent} else {}, if rhs.parent != null then {rhs.parent} else {}
      ensures FieldSwap(old(Snap(s)), Snap(s), this, rhs)
      ensures left == old(rhs.left) && right == old(rhs.right)
      ensures rhs.left == old(left) && rhs.right == old(right)
    {
      var lhs := this;
      var lhsIsLC, rhsIsLC := lhs.IsLeftChild(), rhs.IsLeftChild();
      SwapFields(rhs);
      lhs.ReplaceInParent(rhsIsLC);
      rhs.ReplaceInParent(lhsIsLC);
    }

    /** Re-set the parent links in the children of both nodes. */
    method AdoptBoth(rhs: Node, ghost s: set<Node>)
      requires null !in {left, right, rhs.left, rhs.right} && {left, right, rhs.left, rhs.right} !! {this, rhs}
      requires this in s && rhs in s
      modifies left`parent, right`parent, rhs.left`parent, rhs.right`parent
      ensures Adoption(old(Snap(s)), Snap(s), this, rhs)
    {
      AdoptChildren();
      rhs.AdoptChildren();
    }

    /** swapWith (both the links and the colour), for a node rhs that does not hang directly under this node. */
    method SwapWith(rhs: Node, ghost s: set<Node>, ghost leaf: Node)
      requires Knit(Snap(s), this, leaf) && Knit(Snap(s), rhs, leaf) && this != rhs && rhs.parent != this
      requires parent == rhs ==> rhs.right == this && rhs.parent !in {left, right}
      requires {left, right, rhs.left, rhs.right} <= s + {leaf}
      modifies s, leaf`parent
      ensures Swapped(old(Snap(s)), Snap(s), this, rhs)
    {
      ghost var h := Snap(s);
      assert rhs.left in s ==> h[rhs.left].parent == rhs;
      assert rhs.right in s ==> h[rhs.right].parent == rhs;
      if parent == rhs {
        SwapWithParent(rhs, s);
      } else {
        SwapWithOther(rhs, s);
      }
      PointerSwapSwaps(h, Snap(s), this, rhs, leaf);
    }

    /** Swap parent links, child links and colours. */
    method SwapFields(rhs: Node)
      modifies this, rhs
      ensures parent == old(rhs.parent) && left == old(rhs.left) && right == old(rhs.right) && color == old(rhs.color)
      ensures rhs.parent == old(parent) && rhs.left == old(left) && rhs.right == old(right) && rhs.color == old(color)
    {
      parent, rhs.parent := rhs.parent, parent;
      left, rhs.left := rhs.left, left;
      right, rhs.right := rhs.right, right;
      color, rhs.color := rhs.color, color;
    }

    /** Re-set the child link in the parent. */
    method ReplaceInParent(isLC: bool)
      requires parent != this
      modifies if parent != null then {parent} else {}
      ensures parent != null ==>
        && parent.left == (if isLC then this else old(parent.left))
        && parent.right == (if isLC then old(parent.right) else this)
        && parent.parent == old(parent.parent) && parent.color == old(parent.color)
    {
      if parent != null {
        if isLC {
          parent.left := this;
        } else {
          parent.right := this;
        }
      }
    }

    /** Re-set the parent links in the children. */
    method AdoptChildren()
      requires left != null && right != null && left != this && right != this
      modifies left`parent, right`parent
      ensures left.parent == this && right.parent == this
    {
      left.parent := this;
      right.parent := this;
    }
  }

  ghost function Snap(s: set<Node>): (h: Heap)
    reads s
  {
    map n | n in s :: Links(n.parent, n.left, n.right, n.color)
  }

  /** What rotating x left changes, where y is x's right child, b the left child of y and p the parent of x. */
  ghost predicate LeftRotation(h: Heap, h': Heap, x: Node, y: Node, b: Node, p: Node?) {
    && h'.Keys == h.Keys
    && forall n :: n in h ==>
         h'[n] == (if n == x then h[n].(parent := y, right := b)
                   else if n == y then h[n].(parent := p, left := x)
                   else if n == b then h[n].(parent := x)
                   else if n == p then if h[n].left == x then h[n].(left := y) else h[n].(right := y)
                   else h[n])
  }

  /** What rotating x right changes, where y is x's left child, b the right child of y and p the parent of x. */
  ghost predicate RightRotation(h: Heap, h': Heap, x: Node, y: Node, b: Node, p: Node?) {
    && h'.Keys == h.Keys
    && forall n :: n in h ==>
         h'[n] == (if n == x then h[n].(parent := y, left := b)
                   else if n == y then h[n].(parent := p, right := x)
                   else if n == b then h[n].(parent := x)
                   else if n == p then if h[n].right == x then h[n].(right := y) else h[n].(left := y)
                   else h[n])
  }

  /** The node that takes the place of n when y and z trade places. */
  ghost function Traded(y: Node, z: Node, n: Node?): Node? {
    if n == y then z else if n == z then y else n
  }

  /** y and z have traded places (and colours) and every link follows. */
  ghost predicate Swapped(h: Heap, h': Heap, y: Node, z: Node) {
    h'.Keys == h.Keys && y in h && z in h && forall n :: n in h ==> SwappedAt(h, h', y, z, n)
  }

  ghost predicate SwappedAt(h: Heap, h': Heap, y: Node, z: Node, n: Node)
    requires n in h && h'.Keys == h.Keys && y in h && z in h
  {
    var m: Node := Traded(y, z, n);
    h'[m] == Links(Traded(y, z, h[n].parent), Traded(y, z, h[n].left), Traded(y, z, h[n].right), h[n].color)
  }

  ghost predicate AdjacentSwap(h: Heap, h': Heap, y: Node, z: Node) {
    && h'.Keys == h.Keys
    && (y in h && z in h ==>
        forall n :: n in h ==>
          h'[n] == (if n == y then Links(h[z].parent, h[z].left, z, h[z].color)
                    else if n == z then Links(y, h[y].left, h[y].right, h[y].color)
                    else if n == h[z].left then h[n].(parent := y)
                    else if n == h[y].left || n == h[y].right then h[n].(parent := z)
                    else if n == h[z].parent then if h[n].left == z then h[n].(left := y) else h[n].(right := y)
                    else h[n]))
  }

  ghost predicate FieldSwap(h: Heap, h': Heap, y: Node, z: Node) {
    && h'.Keys == h.Keys
    && (y in h && z in h ==>
        h'[y] == h[z] && h'[z] == h[y] &&
        forall n :: n in h && n != y && n != z ==>
          h'[n] == h[n].(
            left := if n == h[z].parent && h[n].left == z then y
                    else if n == h[y].parent && h[n].left == y then z
                    else h[n].left,
            right := if n == h[z].parent && h[n].left != z then y
                     else if n == h[y].parent && h[n].left != y then z
                     else h[n].right))
  }

  ghost predicate Adoption(h: Heap, h': Heap, y: Node, z: Node) {
    && h'.Keys == h.Keys
    && (y in h && z in h ==>
        forall n :: n in h ==>
          h'[n] == h[n].(
            parent := if n == h[z].left || n == h[z].right then z
                      else if n == h[y].left || n == h[y].right then y
                      else h[n].parent))
  }

  ghost predicate DistantSwap(h: Heap, h': Heap, y: Node, z: Node) {
    && h'.Keys == h.Keys
    && (y in h && z in h ==>
        h'[y] == h[z] && h'[z] == h[y] &&
        forall n :: n in h && n != y && n != z ==>
          h'[n] == Links(
            if n == h[z].left || n == h[z].right then y
            else if n == h[y].left || n == h[y].right then z
            else h[n].parent,
            if n == h[z].parent && h[n].left == z then y
            else if n == h[y].parent && h[n].left == y then z
            else h[n].left,
            if n == h[z].parent && h[n].left != z then y
            else if n == h[y].parent && h[n].left != y then z
            else h[n].right,
            h[n].color))
  }

  /** The links at n agree with those of its neighbours, and nobody else links to n. */
  ghost predicate Knit(h: Heap, n: Node, leaf: Node) {
    && n in h && leaf !in h
    && h[n].left != null && h[n].right != null
    && n !in {h[n].parent, h[n].left, h[n].right}
    && h[n].parent !in {h[n].left, h[n].right}
    && (h[n].left in h ==> h[n].left != h[n].right)
    && (h[n].parent != null ==> h[n].parent in h)
    && forall m :: m in h ==>
         && (h[m].parent == n <==> m == h[n].left || m == h[n].right)
         && (h[m].left == n || h[m].right == n <==> m == h[n].parent)
         && (h[m].left == n ==> h[m].right != n)
  }

  lemma AdjacentSwapAt(h: Heap, h': Heap, y: Node, z: Node, leaf: Node, n: Node)
    requires AdjacentSwap(h, h', y, z) && Knit(h, y, leaf) && Knit(h, z, leaf) && y != z
    requires h[y].parent == z && h[z].right == y && h[z].parent !in {h[y].left, h[y].right} && n in h
    ensures SwappedAt(h, h', y, z, n)
  {}

  lemma DistantSwapAt(h: Heap, h': Heap, y: Node, z: Node, leaf: Node, n: Node)
    requires DistantSwap(h, h', y, z) && Knit(h, y, leaf) && Knit(h, z, leaf) && y != z
    requires h[y].parent != z && h[z].parent != y && n in h
    ensures SwappedAt(h, h', y, z, n)
  {}

  lemma PointerSwapSwaps(h: Heap, h': Heap, y: Node, z: Node, leaf: Node)
    requires Knit(h, y, leaf) && Knit(h, z, leaf) && y != z
    requires if h[y].parent == z then AdjacentSwap(h, h', y, z) && h[z].right == y
             && h[z].parent !in {h[y].left, h[y].right}
             else DistantSwap(h, h', y, z) && h[z].parent != y
    ensures Swapped(h, h', y, z)
  {
    hide SwappedAt;
    forall n: Node | n in h
      ensures SwappedAt(h, h', y, z, n)
    {
      if h[y].parent == z {
        AdjacentSwapAt(h, h', y, z, leaf, n);
      } else {
        DistantSwapAt(h, h', y, z, leaf, n);
      }
    }
  }

  // ----- Trees and their one-hole contexts -----

  /** A tree of nodes with the colour each has; a `Leaf` stands for the one shared leaf node. */
  datatype Tree = Leaf | Bin(l: Tree, n: Node, c: Color, r: Tree)

  /** A tree with a hole, seen from the hole: the path up to the root, with the subtrees hanging off it. */
  datatype Ctx =
    | Top
    | InLeft(up: Ctx, n: Node, c: Color, sib: Tree)
    | InRight(up: Ctx, n: Node, c: Color, sib: Tree)

  ghost function Nodes(t: Tree): set<Node> {
    match t
    case Leaf => {}
    case Bin(l, n, _, r) => Nodes(l) + {n} + Nodes(r)
  }

  ghost function CtxNodes(k: Ctx): set<Node> {
    match k
    case Top => {}
    case InLeft(up, n, _, sib) => CtxNodes(up) + {n} + Nodes(sib)
    case InRight(up, n, _, sib) => CtxNodes(up) + {n} + Nodes(sib)
  }

  /** No node occurs twice. */
  ghost predicate Distinct(t: Tree) {
    t.Bin? ==>
      && Distinct(t.l) && Distinct(t.r)
      && t.n !in Nodes(t.l) && t.n !in Nodes(t.r) && Nodes(t.l) !! Nodes(t.r)
  }

  ghost predicate CtxDistinct(k: Ctx) {
    !k.Top? ==>
      && CtxDistinct(k.up) && Distinct(k.sib)
      && k.n !in CtxNodes(k.up) && k.n !in Nodes(k.sib) && CtxNodes(k.up) !! Nodes(k.sib)
  }

  ghost function RootOf(t: Tree, leaf: Node): Node {
    if t.Leaf? then leaf else t.n
  }

  ghost function ParentOf(k: Ctx): Node? {
    if k.Top? then null else k.n
  }

  /** One level of the context filled with `t`. */
  ghost function Fill(k: Ctx, t: Tree): Tree
    requires !k.Top?
  {
    if k.InLeft? then Bin(t, k.n, k.c, k.sib) else Bin(k.sib, k.n, k.c, t)
  }

  /** The whole tree: the context filled with `t`. */
  ghost function Plug(k: Ctx, t: Tree): Tree
    decreases k
  {
    if k.Top? then t else Plug(k.up, Fill(k, t))
  }

  ghost function Inorder(t: Tree): seq<Node> {
    match t
    case Leaf => []
    case Bin(l, n, _, r) => Inorder(l) + [n] + Inorder(r)
  }

  // ----- The links a shape demands -----

  /** The fields of node n of the tree t whose root hangs under p. */
  ghost function LinkAt(t: Tree, p: Node?, leaf: Node, n: Node): Links
    requires n in Nodes(t)
  {
    if n == t.n then Links(p, RootOf(t.l, leaf), RootOf(t.r, leaf), t.c)
    else if n in Nodes(t.l) then LinkAt(t.l, t.n, leaf, n)
    else LinkAt(t.r, t.n, leaf, n)
  }

  /** The fields of node n of the context k whose hole is filled by the node `hole`. */
  ghost function CtxLinkAt(k: Ctx, hole: Node, leaf: Node, n: Node): Links
    requires n in CtxNodes(k)
  {
    if n == k.n then
      if k.InLeft? then Links(ParentOf(k.up), hole, RootOf(k.sib, leaf), k.c)
      else Links(ParentOf(k.up), RootOf(k.sib, leaf), hole, k.c)
    else if n in Nodes(k.sib) then LinkAt(k.sib, k.n, leaf, n)
    else CtxLinkAt(k.up, k.n, leaf, n)
  }

  /** The fields of node n when the context k is filled with t. */
  ghost function FocusLink(k: Ctx, t: Tree, leaf: Node, n: Node): Links
    requires n in CtxNodes(k) + Nodes(t)
  {
    if n in Nodes(t) then LinkAt(t, ParentOf(k), leaf, n) else CtxLinkAt(k, RootOf(t, leaf), leaf, n)
  }

  /** The nodes of k and t are exactly s, each occurs once, none is the leaf, and each holds something. */
  ghost predicate Apart(s: set<Node>, k: Ctx, t: Tree, leaf: Node) {
    && s == CtxNodes(k) + Nodes(t)
    && CtxDistinct(k) && Distinct(t) && CtxNodes(k) !! Nodes(t)
    && leaf !in s && leaf.item == Nil && forall n :: n in s ==> n.item != Nil
  }

  ghost predicate Shape(h: Heap, k: Ctx, t: Tree, leaf: Node) {
    h.Keys == CtxNodes(k) + Nodes(t) && forall n :: n in h ==> h[n] == FocusLink(k, t, leaf, n)
  }

  /** The shared leaf is black and its children are itself; nothing is said about its parent. */
  ghost predicate LeafOk(leaf: Node)
    reads leaf
  {
    leaf.left == leaf && leaf.right == leaf && leaf.color == Black
  }

  /** The nodes s are linked as the subtree t in the context k. */
  ghost predicate At(s: set<Node>, k: Ctx, t: Tree, leaf: Node)
    reads s, leaf
  {
    LeafOk(leaf) && Apart(s, k, t, leaf) && Shape(Snap(s), k, t, leaf)
  }

  // ----- Moving the focus -----

  lemma FillApart(s: set<Node>, k: Ctx, t: Tree, leaf: Node)
    requires !k.Top?
    ensures Apart(s, k, t, leaf) <==> Apart(s, k.up, Fill(k, t), leaf)
  {}

  lemma FillLink(s: set<Node>, k: Ctx, t: Tree, leaf: Node, n: Node)
    requires !k.Top? && Apart(s, k, t, leaf) && n in s
    ensures n in CtxNodes(k.up) + Nodes(Fill(k, t))
    ensures FocusLink(k, t, leaf, n) == FocusLink(k.up, Fill(k, t), leaf, n)
  {}

  lemma FillShape(h: Heap, s: set<Node>, k: Ctx, t: Tree, leaf: Node)
    requires !k.Top? && Apart(s, k, t, leaf) && h.Keys == s
    ensures Shape(h, k, t, leaf) <==> Shape(h, k.up, Fill(k, t), leaf)
  {
    FillApart(s, k, t, leaf);
    hide FocusLink;
    forall n | n in s
      ensures FocusLink(k, t, leaf, n) == FocusLink(k.up, Fill(k, t), leaf, n)
    {
      FillLink(s, k, t, leaf, n);
    }
  }

  /** The same links seen from one node higher, or one node lower. */
  lemma Refocus(s: set<Node>, k: Ctx, t: Tree, leaf: Node)
    requires !k.Top?
    ensures At(s, k, t, leaf) <==> At(s, k.up, Fill(k, t), leaf)
  {
    FillApart(s, k, t, leaf);
    if Apart(s, k, t, leaf) {
      FillShape(Snap(s), s, k, t, leaf);
    }
  }

  /** What the links at the focus say about the fields of its root. */
  lemma Fields(s: set<Node>, k: Ctx, t: Tree, leaf: Node)
    requires At(s, k, t, leaf)
    ensures t.Bin? ==>
      t.n in s && t.n.item != Nil && t.n.parent == ParentOf(k) && t.n.color == t.c
      && t.n.left == RootOf(t.l, leaf) && t.n.right == RootOf(t.r, leaf)
  {
    if t.Bin? {
      assert t.n in Nodes(t) && t.n in s;
      assert Snap(s)[t.n] == FocusLink(k, t, leaf, t.n);
    }
  }
}
