/** The red/black tree container (BinTree.cpp, RBtree.cpp): a sorted collection ending in the maxObject sentinel. */
module RBtree {
  import opened Arithmetic
  import opened Objects
  import opened TreeShape
  import opened BinTreeNode
  import opened RBtreeNode

  /** compareObjects(): the sentinel, which only ever stands on the left, is greater than every key. */
  function CompareObjects(cmp: Ordering, item: Item, key: Object): int {
    match item
    case Val(o) => cmp(o, key)
    case _ => 1
  }

  /** The nodes hold objects in ascending order, and the sentinel after them. */
  ghost predicate SortedNodes(cmp: Ordering, s: seq<Node>) {
    && s != [] && s[|s| - 1].item == MaxObject
    && (forall i :: 0 <= i < |s| - 1 ==> s[i].item.Val?)
    && (forall i, j :: 0 <= i < j < |s| - 1 ==> cmp(s[i].item.value, s[j].item.value) <= 0)
  }

  /** No two nodes hold equal objects. */
  ghost predicate NoEquals(cmp: Ordering, s: seq<Node>) {
    forall i, j :: 0 <= i < j < |s| && s[i].item.Val? && s[j].item.Val? ==> cmp(s[i].item.value, s[j].item.value) != 0
  }

  ghost predicate NoneEqual(cmp: Ordering, s: seq<Node>, key: Object) {
    forall n :: n in s ==> CompareObjects(cmp, n.item, key) != 0
  }

  lemma NoEqualsAdded(cmp: Ordering, p: seq<Node>, node: Node, q: seq<Node>, o: Object)
    requires IsOrdering(cmp) && NoEquals(cmp, p + q) && NoneEqual(cmp, p + q, o) && node.item == Val(o)
    ensures NoEquals(cmp, p + [node] + q)
  {
    var s, s' := p + q, p + [node] + q;
    forall i, j | 0 <= i < j < |s'| && s'[i].item.Val? && s'[j].item.Val?
      ensures cmp(s'[i].item.value, s'[j].item.value) != 0
    {
      assert i != |p| ==> s'[i] == s[if i < |p| then i else i - 1];
      assert j != |p| ==> s'[j] == s[if j < |p| then j else j - 1];
    }
  }

  lemma NoEqualsWithout(cmp: Ordering, s: seq<Node>, z: Node)
    requires NoEquals(cmp, s) && z in s
    ensures NoEquals(cmp, Without(s, z))
  {
    hide Without;
    var i := WithoutSplit(s, z);
    var s' := Without(s, z);
    assert forall j :: 0 <= j < |s'| ==> s'[j] == s[if j < i then j else j + 1];
  }

  lemma BothEqual(cmp: Ordering, a: Object, b: Object, key: Object)
    requires IsOrdering(cmp) && cmp(a, key) == 0 && cmp(b, key) == 0
    ensures cmp(a, b) == 0 && cmp(b, a) == 0
  {
    assert cmp(a, key) <= 0 && cmp(key, b) <= 0 && cmp(b, key) <= 0 && cmp(key, a) <= 0;
  }

  /** Without equal objects a match is the only one, so that taking it out leaves none. */
  lemma OnlyMatch(cmp: Ordering, s: seq<Node>, i: nat, key: Object)
    requires IsOrdering(cmp) && NoEquals(cmp, s) && i < |s| && CompareObjects(cmp, s[i].item, key) == 0
    ensures forall j :: 0 <= j < |s| && j != i ==> CompareObjects(cmp, s[j].item, key) != 0
    ensures (forall j :: 0 <= j < |s| && j != i ==> s[j] != s[i]) ==> NoneEqual(cmp, Without(s, s[i]), key)
  {
    hide Without;
    forall j | 0 <= j < |s| && j != i
      ensures CompareObjects(cmp, s[j].item, key) != 0
    {
      if s[j].item.Val? && cmp(s[j].item.value, key) == 0 {
        BothEqual(cmp, s[i].item.value, s[j].item.value, key);
        assert false;
      }
    }
    var m := WithoutSplit(s, s[i]);
    if forall j :: 0 <= j < |s| && j != i ==> s[j] != s[i] {
      assert m == i;
    }
  }

  ghost function ObjectOf(n: Node): Object {
    if n.item.Val? then n.item.value else Object(0)
  }

  /** The objects held by a sequence of nodes that ends in the sentinel. */
  ghost function Held(s: seq<Node>): (r: seq<Object>)
    requires s != []
    ensures |r| == |s| - 1 && forall i :: 0 <= i < |s| - 1 ==> r[i] == ObjectOf(s[i])
  {
    seq(|s| - 1, i requires 0 <= i < |s| - 1 => ObjectOf(s[i]))
  }

  ghost predicate AllBelow(cmp: Ordering, s: seq<Node>, key: Object) {
    forall i :: 0 <= i < |s| ==> CompareObjects(cmp, s[i].item, key) < 0
  }

  ghost predicate NoneBelow(cmp: Ordering, s: seq<Node>, key: Object) {
    forall i :: 0 <= i < |s| ==> CompareObjects(cmp, s[i].item, key) >= 0
  }

  ghost predicate NoneAbove(cmp: Ordering, s: seq<Node>, key: Object) {
    forall i :: 0 <= i < |s| ==> CompareObjects(cmp, s[i].item, key) <= 0
  }

  ghost predicate AllAbove(cmp: Ordering, s: seq<Node>, key: Object) {
    forall i :: 0 <= i < |s| ==> CompareObjects(cmp, s[i].item, key) > 0
  }

  /** How a node compares with a key decides for all nodes on one side of it. */
  lemma SortedAround(cmp: Ordering, p: seq<Node>, n: Node, q: seq<Node>, key: Object)
    requires IsOrdering(cmp) && SortedNodes(cmp, p + [n] + q)
    ensures CompareObjects(cmp, n.item, key) < 0 ==> AllBelow(cmp, p + [n], key)
    ensures CompareObjects(cmp, n.item, key) >= 0 ==> NoneBelow(cmp, [n] + q, key)
    ensures CompareObjects(cmp, n.item, key) > 0 ==> AllAbove(cmp, [n] + q, key)
  {
    var s := p + [n] + q;
    var m := |p|;
    assert s[m] == n;
    forall i | 0 <= i < |p| && CompareObjects(cmp, n.item, key) < 0
      ensures CompareObjects(cmp, p[i].item, key) < 0
    {
      assert s[i] == p[i];
      assert cmp(p[i].item.value, n.item.value) <= 0;
    }
    forall i | 0 <= i < |q| && CompareObjects(cmp, n.item, key) >= 0
      ensures CompareObjects(cmp, q[i].item, key) >= 0
      ensures CompareObjects(cmp, n.item, key) > 0 ==> CompareObjects(cmp, q[i].item, key) > 0
    {
      assert s[m + 1 + i] == q[i];
      if m + 1 + i < |s| - 1 {
        assert cmp(n.item.value, q[i].item.value) <= 0;
      }
    }
  }

  // ----- Finding a node's place -----

  lemma {:induction false} FromTop(s: set<Node>, k: Ctx, t: Tree, leaf: Node)
    requires At(s, Top, Plug(k, t), leaf)
    ensures At(s, k, t, leaf)
    decreases k
  {
    if !k.Top? {
      FromTop(s, k.up, Fill(k, t), leaf);
      Refocus(s, k, t, leaf);
    }
  }

  lemma {:induction false} Locate(k0: Ctx, t0: Tree, n: Node) returns (k: Ctx, t: Tree)
    requires n in Nodes(t0)
    ensures Plug(k, t) == Plug(k0, t0) && t.Bin? && t.n == n
    decreases t0
  {
    if n == t0.n {
      k, t := k0, t0;
    } else if n in Nodes(t0.l) {
      k, t := Locate(InLeft(k0, t0.n, t0.c, t0.r), t0.l, n);
    } else {
      k, t := Locate(InRight(k0, t0.n, t0.c, t0.l), t0.r, n);
    }
  }

  lemma {:induction false} InorderOnce(t: Tree)
    requires Distinct(t)
    ensures forall i, j :: 0 <= i < j < |Inorder(t)| ==> Inorder(t)[i] != Inorder(t)[j]
  {
    if t.Bin? {
      InorderOnce(t.l);
      InorderOnce(t.r);
      var a, b := Inorder(t.l), Inorder(t.r);
      forall i | 0 <= i < |a|
        ensures a[i] in Nodes(t.l)
      {
        InorderMembers(t.l, a[i]);
      }
      forall i | 0 <= i < |b|
        ensures b[i] in Nodes(t.r)
      {
        InorderMembers(t.r, b[i]);
      }
    }
  }

  // ----- Height -----

  ghost function Height(t: Tree): nat {
    if t.Leaf? then 0 else 1 + if Height(t.l) > Height(t.r) then Height(t.l) else Height(t.r)
  }

  lemma {:induction false} PathsAndSize(t: Tree)
    requires RedBlack(t)
    ensures Height(t) <= 2 * BlackHeight(t) + if RootColor(t) == Red then 1 else 0
    ensures Pow2(BlackHeight(t)) <= |Inorder(t)| + 1
  {
    if t.Bin? {
      PathsAndSize(t.l);
      PathsAndSize(t.r);
    }
  }

  /** With a black root and n objects besides the sentinel, the height is at most 2 log2(n + 2). */
  lemma HeightBound(t: Tree)
    requires RedBlack(t) && RootColor(t) == Black
    ensures Pow2(Height(t)) <= (|Inorder(t)| + 1) * (|Inorder(t)| + 1)
  {
    PathsAndSize(t);
    Pow2Mono(Height(t), 2 * BlackHeight(t));
    Pow2Doubled(BlackHeight(t), Pow2(BlackHeight(t)));
    Squares(Pow2(BlackHeight(t)), |Inorder(t)| + 1);
  }

  lemma Squares(p: nat, n: nat)
    requires p <= n
    ensures p * p <= n * n
  {
    assert p * p <= p * n;
  }

  // ----- Searching -----

  /** On a sorted tree, comparing the key with a node settles one side of it. */
  lemma SearchSides(cmp: Ordering, k: Ctx, t: Tree, key: Object)
    requires IsOrdering(cmp) && SortedNodes(cmp, Inorder(Plug(k, t))) && t.Bin?
    ensures CompareObjects(cmp, t.n.item, key) < 0 ==> AllBelow(cmp, Through(k, t), key)
    ensures CompareObjects(cmp, t.n.item, key) >= 0 ==> NoneBelow(cmp, From(k, t), key)
    ensures CompareObjects(cmp, t.n.item, key) > 0 ==> AllAbove(cmp, From(k, t), key)
  {
    var p, q := Before(k) + Inorder(t.l), Inorder(t.r) + After(k);
    ThroughPrefix(k, t);
    assert Inorder(Plug(k, t)) == p + [t.n] + q;
    assert Through(k, t) == p + [t.n] && From(k, t) == [t.n] + q;
    SortedAround(cmp, p, t.n, q, key);
  }

  /** o has been put into c before everything that is not less than it. */
  ghost predicate AddedInOrder(cmp: Ordering, c: seq<Object>, o: Object, c': seq<Object>) {
    exists i ::
      && 0 <= i <= |c| && c' == c[..i] + [o] + c[i..]
      && (forall j :: 0 <= j < i ==> cmp(c[j], o) < 0) && (forall j :: i <= j < |c| ==> cmp(c[j], o) >= 0)
  }

  lemma AddedSorted(cmp: Ordering, p: seq<Node>, node: Node, q: seq<Node>, o: Object)
    requires IsOrdering(cmp) && SortedNodes(cmp, p + q) && NoneAbove(cmp, p, o) && NoneBelow(cmp, q, o)
    requires node.item == Val(o)
    ensures SortedNodes(cmp, p + [node] + q)
  {
    var s, s', m := p + q, p + [node] + q, |p|;
    assert m < |s|;
    AddedAt(p, node, q);
    forall i | 0 <= i < |s'| - 1
      ensures s'[i].item.Val?
      ensures i < m ==> cmp(s'[i].item.value, o) <= 0
      ensures m <= i ==> cmp(o, s'[i].item.value) <= 0
    {
      if i < m {
        assert s[i] == p[i];
      } else if i > m {
        assert s[i - 1] == q[i - 1 - m];
      }
    }
    forall i, j | 0 <= i < j < |s'| - 1
      ensures cmp(s'[i].item.value, s'[j].item.value) <= 0
    {
      var i', j' := if i < m then i else i - 1, if j < m then j else j - 1;
      assert i != m && j != m ==> s'[i] == s[i'] && s'[j] == s[j'];
    }
  }

  lemma AddedAt(p: seq<Node>, node: Node, q: seq<Node>)
    ensures var s, s', m := p + q, p + [node] + q, |p|;
      && |s'| == |s| + 1
      && forall i :: 0 <= i < |s'| ==> s'[i] == if i < m then s[i] else if i == m then node else s[i - 1]
  {}

  lemma AddedHeld(cmp: Ordering, p: seq<Node>, node: Node, q: seq<Node>, o: Object)
    requires SortedNodes(cmp, p + q) && AllBelow(cmp, p, o) && NoneBelow(cmp, q, o)
    requires node.item == Val(o)
    ensures AddedInOrder(cmp, Held(p + q), o, Held(p + [node] + q))
  {
    var s, m := p + q, |p|;
    var c := Held(s);
    assert m < |s|;
    assert Held(p + [node] + q) == c[..m] + [o] + c[m..];
    forall j | 0 <= j < m
      ensures cmp(c[j], o) < 0
    {
      assert s[j] == p[j];
    }
    forall j | m <= j < |c|
      ensures cmp(c[j], o) >= 0
    {
      assert s[j] == q[j - m];
    }
  }

  /** Comparing equal to a key, said of the nodes and of the objects they hold. */
  lemma EqualHeld(cmp: Ordering, s: seq<Node>, key: Object)
    requires SortedNodes(cmp, s)
    ensures (exists n :: n in s && CompareObjects(cmp, n.item, key) == 0)
            <==> exists o :: o in Held(s) && cmp(o, key) == 0
  {
    forall i | 0 <= i < |s|
      ensures CompareObjects(cmp, s[i].item, key) == 0 <==> i < |s| - 1 && cmp(Held(s)[i], key) == 0
    {}
    if n :| n in s && CompareObjects(cmp, n.item, key) == 0 {
      var i :| 0 <= i < |s| && s[i] == n;
      assert Held(s)[i] in Held(s);
    }
    if o :| o in Held(s) && cmp(o, key) == 0 {
      var i :| 0 <= i < |s| - 1 && Held(s)[i] == o;
      assert s[i] in s;
    }
  }

  lemma PlugTop(t: Tree)
    ensures Plug(Top, t) == t
  {}

  /** The search has ended on a hole: nothing equals the key unless something from the hole on does. */
  lemma HoleEqual(cmp: Ordering, k: Ctx, key: Object)
    requires AllBelow(cmp, Before(k), key) && AllAbove(cmp, After(k), key)
    ensures forall n :: n in Inorder(Plug(k, Leaf)) ==> CompareObjects(cmp, n.item, key) != 0
  {
    PlugInorder(k, Leaf);
    assert Before(k) + [] + After(k) == Before(k) + After(k);
  }

  ghost predicate IsLowerBound(cmp: Ordering, s: seq<Node>, i: int, key: Object) {
    0 <= i < |s| && AllBelow(cmp, s[..i], key) && NoneBelow(cmp, s[i..], key)
  }

  /** The node before which the search ended is the first that is not less than the key. */
  lemma HoleLowerBound(cmp: Ordering, k: Ctx, key: Object)
    requires SortedNodes(cmp, Inorder(Plug(k, Leaf)))
    requires AllBelow(cmp, Before(k), key) && NoneBelow(cmp, After(k), key)
    ensures Inorder(Plug(k, Leaf)) == Before(k) + After(k)
            && IsLowerBound(cmp, Inorder(Plug(k, Leaf)), |Before(k)|, key)
  {
    PlugInorder(k, Leaf);
    var s := Inorder(Plug(k, Leaf));
    assert s == Before(k) + After(k);
    assert s[..|Before(k)|] == Before(k) && s[|Before(k)|..] == After(k);
  }

  datatype FindType = FindAny | FindFirst | FindLast

  /** The i-th node matches the key; nothing before it does (first), or nothing after it (last). */
  ghost predicate IsMatch(cmp: Ordering, s: seq<Node>, i: int, key: Object, findType: FindType) {
    && 0 <= i < |s| && CompareObjects(cmp, s[i].item, key) == 0
    && (findType == FindFirst ==> AllBelow(cmp, s[..i], key))
    && (findType == FindLast ==> AllAbove(cmp, s[i + 1..], key))
  }

  /** The node right after a hole matches, and nothing before the hole does. */
  lemma HoleFirstMatch(cmp: Ordering, k: Ctx, key: Object)
    requires AllBelow(cmp, Before(k), key) && After(k) != [] && CompareObjects(cmp, After(k)[0].item, key) == 0
    ensures IsMatch(cmp, Inorder(Plug(k, Leaf)), |Before(k)|, key, FindFirst)
    ensures Inorder(Plug(k, Leaf))[|Before(k)|] == After(k)[0]
  {
    PlugInorder(k, Leaf);
    assert Inorder(Plug(k, Leaf)) == Before(k) + After(k);
    assert Inorder(Plug(k, Leaf))[..|Before(k)|] == Before(k);
  }

  /** The node right before a hole matches, and nothing after the hole does. */
  lemma HoleLastMatch(cmp: Ordering, k: Ctx, key: Object)
    requires AllAbove(cmp, After(k), key) && Before(k) != []
             && CompareObjects(cmp, Before(k)[|Before(k)| - 1].item, key) == 0
    ensures IsMatch(cmp, Inorder(Plug(k, Leaf)), |Before(k)| - 1, key, FindLast)
    ensures Inorder(Plug(k, Leaf))[|Before(k)| - 1] == Before(k)[|Before(k)| - 1]
  {
    PlugInorder(k, Leaf);
    assert Inorder(Plug(k, Leaf)) == Before(k) + After(k);
    assert Inorder(Plug(k, Leaf))[|Before(k)|..] == After(k);
  }

  /** A node that does not match, next to one that does, lies on the expected side of the key. */
  lemma BesideMatch(cmp: Ordering, k: Ctx, t: Tree, key: Object)
    requires IsOrdering(cmp) && SortedNodes(cmp, Inorder(Plug(k, t))) && t.Bin?
             && CompareObjects(cmp, t.n.item, key) != 0
    ensures After(k) != [] && CompareObjects(cmp, After(k)[0].item, key) == 0 ==> CompareObjects(cmp, t.n.item, key) < 0
    ensures Before(k) != [] && CompareObjects(cmp, Before(k)[|Before(k)| - 1].item, key) == 0
            ==> CompareObjects(cmp, t.n.item, key) > 0
  {
    SearchSides(cmp, k, t, key);
    if After(k) != [] {
      assert From(k, t)[|From(k, t)| - |After(k)|] == After(k)[0];
    }
    if Before(k) != [] {
      assert Through(k, t)[|Before(k)| - 1] == Before(k)[|Before(k)| - 1];
    }
  }

  /** One step down to the left, to a subtree or a hole: everything from the node on is after it. */
  lemma GoLeft(s: set<Node>, k: Ctx, t: Tree, leaf: Node) returns (k': Ctx, t': Tree)
    requires At(s, k, t, leaf) && t.Bin?
    ensures t' == t.l && At(s, k', t', leaf) && Plug(k', t') == Plug(k, t) && k' == InLeft(k, t.n, t.c, t.r)
    ensures t.n.left == RootOf(t', leaf) && (t.n.left.IsLeaf() <==> t'.Leaf?)
    ensures Before(k') == Before(k) && After(k') == From(k, t) && After(k')[0] == t.n
  {
    hide At, Plug;
    Stand(s, k, t, leaf);
    DescendLeft(s, k, t, leaf);
    k', t' := InLeft(k, t.n, t.c, t.r), t.l;
  }

  lemma GoRight(s: set<Node>, k: Ctx, t: Tree, leaf: Node) returns (k': Ctx, t': Tree)
    requires At(s, k, t, leaf) && t.Bin?
    ensures t' == t.r && At(s, k', t', leaf) && Plug(k', t') == Plug(k, t) && k' == InRight(k, t.n, t.c, t.l)
    ensures t.n.right == RootOf(t', leaf) && (t.n.right.IsLeaf() <==> t'.Leaf?)
    ensures After(k') == After(k) && Before(k') == Through(k, t) && Before(k')[|Before(k')| - 1] == t.n
  {
    hide At, Plug;
    Stand(s, k, t, leaf);
    DescendRight(s, k, t, leaf);
    k', t' := InRight(k, t.n, t.c, t.l), t.r;
  }

  /** A matching node found on the way down, with the nodes before and after its subtree out of the question. */
  lemma NodeMatch(cmp: Ordering, k: Ctx, t: Tree, key: Object)
    requires t.Bin? && CompareObjects(cmp, t.n.item, key) == 0
    ensures var i := |Before(k) + Inorder(t.l)|;
      IsMatch(cmp, Inorder(Plug(k, t)), i, key, FindAny) && Inorder(Plug(k, t))[i] == t.n
  {
    ThroughPrefix(k, t);
  }

  class RBtree {
    const cmp: Ordering
    const multiSet: bool
    const leaf: Node
    var root: Node
    var items: nat
    ghost var tree: Tree
    ghost var nodes: set<Node>

    ghost predicate Linked()
      reads this, leaf, nodes
    {
      At(nodes, Top, tree, leaf) && tree.Bin? && root == tree.n
    }

    ghost predicate Valid()
      reads this, leaf, nodes
    {
      && Linked() && RedBlack(tree) && tree.c == Black
      && IsOrdering(cmp) && SortedNodes(cmp, Inorder(tree)) && items + 1 == |Inorder(tree)|
      && (multiSet || NoEquals(cmp, Inorder(tree)))
    }

    /** The collection: the objects in order, without the sentinel. */
    ghost function Contents(): seq<Object>
      reads this, leaf, nodes
      requires Valid()
    {
      Held(Inorder(tree))
    }

    /** init(): the shared leaf is its own child, and the tree holds just the sentinel. */
    constructor (multiSet: bool, cmp: Ordering)
      requires IsOrdering(cmp)
      ensures Valid() && Contents() == [] && this.multiSet == multiSet && this.cmp == cmp
      ensures fresh(leaf) && fresh(nodes)
    {
      var l := new Node(Nil, Black);
      var r := new Node(MaxObject, Black);
      l.left, l.right, l.parent := l, l, l;
      r.left, r.right, l.parent := l, l, r;
      this.multiSet, this.cmp, this.leaf, this.root, this.items := multiSet, cmp, l, r, 0;
      this.tree, this.nodes := Bin(Leaf, r, Black, Leaf), {r};
      new;
      Alone(r, l);
    }

    /**
     * findInsertionPoint(): where the key goes (insert), or the first node that is not less than the key. Null only if
     * inserting is not allowed.
     */
    method FindInsertionPoint(key: Object, insert: bool) returns (node: Node?, insertLeft: bool, ghost k: Ctx)
      requires Valid()
      ensures node == null <==>
        insert && !multiSet && exists n :: n in Inorder(tree) && CompareObjects(cmp, n.item, key) == 0
      ensures node != null && insert ==>
        && At(nodes, k, Leaf, leaf) && Plug(k, Leaf) == tree && !k.Top? && k.n == node && k.InLeft? == insertLeft
        && AllBelow(cmp, Before(k), key) && NoneBelow(cmp, After(k), key)
      ensures !insert ==> exists i :: IsLowerBound(cmp, Inorder(tree), i, key) && node == Inorder(tree)[i]
    {
      hide At, Plug, Nodes, RedBlack, Inorder, SortedNodes, NoEquals;
      ghost var s := nodes;
      ghost var t := tree;
      PlugTop(tree);
      node, insertLeft, k := root, false, Top;
      while true
        invariant At(s, k, t, leaf) && Plug(k, t) == tree && t.Bin? && node == t.n
        invariant AllBelow(cmp, Before(k), key) && NoneBelow(cmp, After(k), key)
        invariant insert && !multiSet ==> AllAbove(cmp, After(k), key)
        decreases t
      {
        SearchSides(cmp, k, t, key);
        var c := CompareObjects(cmp, node.item, key);
        if c == 0 && insert && !multiSet {
          ThroughPrefix(k, t);
          assert node in Inorder(tree);
          node := null;
          return;
        }
        var next;
        ghost var k', t';
        if c >= 0 {
          next := node.left;
          k', t' := GoLeft(s, k, t, leaf);
        } else {
          next := node.right;
          k', t' := GoRight(s, k, t, leaf);
        }
        if next.IsLeaf() {
          if insert {
            insertLeft := c >= 0;
            if !multiSet {
              HoleEqual(cmp, k', key);
            }
          } else {
            HoleLowerBound(cmp, k', key);
            if c < 0 {
              ghost var k2, t2;
              node, k2, t2 := Next(node, s, k, t, leaf);
            }
          }
          k := k';
          return;
        }
        node, k, t := next, k', t';
      }
    }

    /** findFirstMatch(): from a matching node, the first one that matches. */
    method FindFirstMatch(key: Object, node0: Node, ghost k0: Ctx, ghost t0: Tree) returns (res: Node, ghost i: nat)
      requires Valid() && At(nodes, k0, t0, leaf) && Plug(k0, t0) == tree && t0.Bin? && t0.n == node0
      requires CompareObjects(cmp, node0.item, key) == 0 && AllBelow(cmp, Before(k0), key)
      ensures IsMatch(cmp, Inorder(tree), i, key, FindFirst) && res == Inorder(tree)[i]
      ensures res in Inorder(tree) && CompareObjects(cmp, res.item, key) == 0
    {
      hide At, Plug, Nodes, RedBlack, Inorder, SortedNodes, IsMatch, AllBelow, AllAbove, NoneBelow, Before, After,
           CompareObjects, NoEquals;
      ghost var k, t := k0, t0;
      var node := node0;
      res := node;
      while true
        invariant At(nodes, k, t, leaf) && Plug(k, t) == tree && t.Bin? && t.n == node == res
        invariant CompareObjects(cmp, res.item, key) == 0 && AllBelow(cmp, Before(k), key)
        decreases t
      {
        // leftward past nodes that match
        while true
          invariant At(nodes, k, t, leaf) && Plug(k, t) == tree && t.Bin? && t.n == node == res
          invariant CompareObjects(cmp, res.item, key) == 0 && AllBelow(cmp, Before(k), key)
          decreases t
        {
          k, t := GoLeft(nodes, k, t, leaf);
          var leftNode := node.left;
          if leftNode.IsLeaf() {
            HoleFirstMatch(cmp, k, key);
            i := |Before(k)|;
            return;
          }
          node := leftNode;
          if CompareObjects(cmp, node.item, key) == 0 {
            res := node;
          } else {
            break;
          }
        }

        // and back to the right, up to one that matches again
        BesideMatch(cmp, k, t, key);
        while true
          invariant At(nodes, k, t, leaf) && Plug(k, t) == tree && t.Bin? && t.n == node
          invariant CompareObjects(cmp, res.item, key) == 0 && AllBelow(cmp, Before(k), key)
          invariant CompareObjects(cmp, node.item, key) < 0 && After(k) != [] && After(k)[0] == res
          decreases t
        {
          SearchSides(cmp, k, t, key);
          k, t := GoRight(nodes, k, t, leaf);
          var rightNode := node.right;
          if rightNode.IsLeaf() {
            HoleFirstMatch(cmp, k, key);
            i := |Before(k)|;
            return;
          }
          node := rightNode;
          if CompareObjects(cmp, node.item, key) == 0 {
            res := node;
            break;
          }
          BesideMatch(cmp, k, t, key);
        }
      }
    }

    /** findLastMatch(): from a matching node, the last one that matches. */
    method FindLastMatch(key: Object, node0: Node, ghost k0: Ctx, ghost t0: Tree) returns (res: Node, ghost i: nat)
      requires Valid() && At(nodes, k0, t0, leaf) && Plug(k0, t0) == tree && t0.Bin? && t0.n == node0
      requires CompareObjects(cmp, node0.item, key) == 0 && AllAbove(cmp, After(k0), key)
      ensures IsMatch(cmp, Inorder(tree), i, key, FindLast) && res == Inorder(tree)[i]
      ensures res in Inorder(tree) && CompareObjects(cmp, res.item, key) == 0
    {
      hide At, Plug, Nodes, RedBlack, Inorder, SortedNodes, IsMatch, AllBelow, AllAbove, NoneBelow, Before, After,
           CompareObjects, NoEquals;
      ghost var k, t := k0, t0;
      var node := node0;
      res := node;
      while true
        invariant At(nodes, k, t, leaf) && Plug(k, t) == tree && t.Bin? && t.n == node == res
        invariant CompareObjects(cmp, res.item, key) == 0 && AllAbove(cmp, After(k), key)
        decreases t
      {
        // rightward past nodes that match
        while true
          invariant At(nodes, k, t, leaf) && Plug(k, t) == tree && t.Bin? && t.n == node == res
          invariant CompareObjects(cmp, res.item, key) == 0 && AllAbove(cmp, After(k), key)
          decreases t
        {
          k, t := GoRight(nodes, k, t, leaf);
          var rightNode := node.right;
          if rightNode.IsLeaf() {
            HoleLastMatch(cmp, k, key);
            i := |Before(k)| - 1;
            return;
          }
          node := rightNode;
          if CompareObjects(cmp, node.item, key) == 0 {
            res := node;
          } else {
            break;
          }
        }

        // and back to the left, up to one that matches again
        BesideMatch(cmp, k, t, key);
        while true
          invariant At(nodes, k, t, leaf) && Plug(k, t) == tree && t.Bin? && t.n == node
          invariant CompareObjects(cmp, res.item, key) == 0 && AllAbove(cmp, After(k), key)
          invariant CompareObjects(cmp, node.item, key) > 0 && Before(k) != [] && Before(k)[|Before(k)| - 1] == res
          decreases t
        {
          SearchSides(cmp, k, t, key);
          k, t := GoLeft(nodes, k, t, leaf);
          var leftNode := node.left;
          if leftNode.IsLeaf() {
            HoleLastMatch(cmp, k, key);
            i := |Before(k)| - 1;
            return;
          }
          node := leftNode;
          if CompareObjects(cmp, node.item, key) == 0 {
            res := node;
            break;
          }
          BesideMatch(cmp, k, t, key);
        }
      }
    }

    /** findNode(): a node matching the key (any, the first or the last one), or null if there is none. */
    method FindNode(key: Object, findType: FindType) returns (res: Node?, ghost i: nat)
      requires Valid()
      ensures res == null <==> forall n :: n in Inorder(tree) ==> CompareObjects(cmp, n.item, key) != 0
      ensures res != null ==> IsMatch(cmp, Inorder(tree), i, key, findType) && res == Inorder(tree)[i]
    {
      hide At, Plug, Nodes, RedBlack, Inorder, SortedNodes, NoEquals;
      res, i := null, 0;
      ghost var k, t := Top, tree;
      PlugTop(tree);
      var node := root;
      ItemsHeld(nodes, k, t, leaf);
      while !node.IsLeaf()
        invariant At(nodes, k, t, leaf) && Plug(k, t) == tree && node == RootOf(t, leaf) && (node.IsLeaf() <==> t.Leaf?)
        invariant AllBelow(cmp, Before(k), key) && AllAbove(cmp, After(k), key) && res == null
        decreases t
      {
        SearchSides(cmp, k, t, key);
        var c := CompareObjects(cmp, node.item, key);
        if c == 0 {
          res := node;
          break;
        } else if c > 0 {
          k, t := GoLeft(nodes, k, t, leaf);
          node := node.left;
        } else {
          k, t := GoRight(nodes, k, t, leaf);
          node := node.right;
        }
      }

      if res != null {
        NodeMatch(cmp, k, t, key);
        i := |Before(k) + Inorder(t.l)|;
        if findType == FindFirst {
          res, i := FindFirstMatch(key, res, k, t);
        } else if findType == FindLast {
          res, i := FindLastMatch(key, res, k, t);
        }
      } else {
        HoleEqual(cmp, k, key);
      }
    }

    /** resetRoot(): climb from a node of the tree to its root, and paint root and leaf black. */
    method ResetRoot(ghost s: set<Node>, ghost w: Tree)
      requires At(s, Top, w, leaf) && w.Bin? && RedBlack(w) && root in s
      modifies this`root, this`tree, this`nodes, leaf`color, s
      ensures tree == Painted(w, Black) && nodes == s && Linked() && RedBlack(tree) && tree.c == Black
      ensures Inorder(tree) == Inorder(w)
    {
      hide At, Nodes, RedBlack, Inorder, Plug, NoEquals;
      ghost var k, t := LocateAt(s, w, root, leaf);
      Stand(s, k, t, leaf);
      while root.parent != null
        invariant At(s, k, t, leaf) && Plug(k, t) == w && t.Bin? && root == t.n && root.parent == ParentOf(k)
                  && root in s
        decreases k
      {
        Ascend(s, k, t, leaf);
        root := root.parent;
        k, t := k.up, Fill(k, t);
        Stand(s, k, t, leaf);
      }
      PlugTop(t);
      PaintedRoot(w);
      SetColor(root, Black, s, Top, w, leaf);
      PaintLeaf(leaf, s, Top, Painted(w, Black));
      tree, nodes := Painted(w, Black), s;
    }

    /** The part add() and insert() share: hang a red node holding the object in the hole of k, and rebalance. */
    method HangAndFix(object_: Object, parent: Node, left: bool, ghost k: Ctx) returns (ghost node: Node)
      requires Valid() && At(nodes, k, Leaf, leaf) && Plug(k, Leaf) == tree
      requires !k.Top? && parent == k.n && left == k.InLeft?
      modifies this`root, this`tree, this`items, this`nodes, leaf, nodes
      ensures Linked() && RedBlack(tree) && tree.c == Black && items == old(items) + 1
      ensures fresh(node) && node.item == Val(object_) && node !in old(Inorder(tree))
      ensures old(Inorder(tree)) == Before(k) + After(k) && Inorder(tree) == Before(k) + [node] + After(k)
      ensures nodes == old(nodes) + {node}
    {
      hide At, Nodes, RedBlack, Inorder, Plug, Added, NoEquals;
      var new_ := new Node(Val(object_), Red);
      node := new_;
      TopNodes(nodes, tree, leaf);
      RootIn(tree);
      InorderMembers(tree, new_);
      HungAdded(k, tree, new_);
      ghost var s := nodes;
      StandUp(s, k, Leaf, leaf);
      Hang(parent, new_, left, s, k, leaf);
      ghost var t := Bin(Leaf, new_, Red, Leaf);
      ghost var w := AddFixup(new_, s + {new_}, k, t, leaf);

      ResetRoot(s + {new_}, w);

      items := items + 1;
    }

    /** add(): put the object before all equal ones, or reject it if there is one and the tree is not a multi-set. */
    method Add(object_: Object) returns (ok: bool)
      requires Valid()
      modifies this`root, this`tree, this`items, this`nodes, leaf, nodes
      ensures Valid()
      ensures ok <==> multiSet || forall o :: o in old(Contents()) ==> cmp(o, object_) != 0
      ensures ok ==> AddedInOrder(cmp, old(Contents()), object_, Contents())
      ensures ok ==> exists node :: node in nodes && fresh(node) && Without(Inorder(tree), node) == old(Inorder(tree))
      ensures !ok ==> tree == old(tree) && root == old(root) && items == old(items)
    {
      hide At, RedBlack, Inorder, Plug, SortedNodes, AddedInOrder, Held, Without, AllBelow, NoneBelow, NoEquals;
      EqualHeld(cmp, Inorder(tree), object_);
      var parent, insertLeft;
      ghost var k;
      parent, insertLeft, k := FindInsertionPoint(object_, true);

      if parent == null {
        return false;
      }

      ghost var node := HangAndFix(object_, parent, insertLeft, k);
      AddedAll(cmp, Before(k), node, After(k), object_, old(Inorder(tree)));
      if !multiSet {
        NoEqualsAdded(cmp, Before(k), node, After(k), object_);
      }
      ok := true;
    }

    /** insert(): put the object right before the iterator's node, where it must fit the order. */
    method Insert(object_: Object, it: Node, ghost i: nat)
      requires Valid() && i < |Inorder(tree)| && Inorder(tree)[i] == it
      requires NoneAbove(cmp, Inorder(tree)[..i], object_) && NoneBelow(cmp, Inorder(tree)[i..], object_)
      requires multiSet || NoneEqual(cmp, Inorder(tree), object_)
      modifies this`root, this`tree, this`items, this`nodes, leaf, nodes
      ensures Valid() && items == old(items) + 1
      ensures |Inorder(tree)| > i && fresh(Inorder(tree)[i]) && Inorder(tree)[i].item == Val(object_)
      ensures Inorder(tree) == old(Inorder(tree))[..i] + [Inorder(tree)[i]] + old(Inorder(tree))[i..]
    {
      hide At, Nodes, RedBlack, Inorder, Plug, SortedNodes, NoneAbove, NoneBelow, NoEquals;
      ghost var before := Inorder(tree);
      var parent, left;
      ghost var k;
      parent, left, k := HoleBefore(it, i);
      ghost var node := HangAndFix(object_, parent, left, k);
      AddedSorted(cmp, Before(k), node, After(k), object_);
      if !multiSet {
        NoEqualsAdded(cmp, Before(k), node, After(k), object_);
      }
    }

    /** Where insert() hangs the new node: left of the iterator's node, or right of the node before it. */
    method HoleBefore(it: Node, ghost i: nat) returns (parent: Node, left: bool, ghost k: Ctx)
      requires Valid() && i < |Inorder(tree)| && Inorder(tree)[i] == it
      ensures Valid() && At(nodes, k, Leaf, leaf) && Plug(k, Leaf) == tree
      ensures !k.Top? && parent == k.n && left == k.InLeft?
      ensures Before(k) == Inorder(tree)[..i] && After(k) == Inorder(tree)[i..]
      ensures if left then parent == it else i > 0 && parent == Inorder(tree)[i - 1]
    {
      hide At, Nodes, RedBlack, Inorder, Plug, SortedNodes, NoEquals;
      ghost var k1, t := LocateIndex(nodes, tree, i, leaf);
      Stand(nodes, k1, t, leaf);
      FromSuffix(k1, t);
      ThroughPrefix(k1, t);
      parent := it;
      if parent.left.IsLeaf() {
        left := true;
        DescendLeft(nodes, k1, t, leaf);
        k := InLeft(k1, t.n, t.c, t.r);
      } else {
        ghost var k', t';
        parent, k', t' := Prev(parent, nodes, k1, t, leaf);
        left := false;
        DescendRight(nodes, k', t', leaf);
        k := InRight(k', t'.n, t'.c, t'.l);
        HoleInorder(k);
        assert From(k', t') == [t'.n] + After(k') == [parent] + From(k1, t);
        assert After(k) == From(k', t')[1..];
      }
      HoleInorder(k);
      HoleAt(Inorder(tree), i, From(k1, t), Before(k), After(k));
    }

    /**
     * removeNode(): take the node itself out of the tree; every other node stays and keeps its object. Only a node
     * other than the sentinel may be removed.
     */
    method RemoveNode(node: Node) returns (removed: Node)
      requires Valid() && node in nodes && node.item.Val?
      modifies this`root, this`tree, this`items, this`nodes, leaf, nodes
      ensures Valid() && removed == node && items == old(items) - 1
      ensures nodes == old(nodes) - {node}
      ensures Inorder(tree) == Without(old(Inorder(tree)), node)
    {
      hide At, Nodes, RedBlack, Inorder, Plug, SortedNodes, Without, NoEquals;
      ghost var s, before := nodes, Inorder(tree);
      ghost var k, t := LocateAt(s, tree, node, leaf);
      Stand(s, k, t, leaf);
      TopNodes(s, tree, leaf);
      RootIn(tree);
      InorderMembers(tree, node);
      if node == root {
        SentinelRight(cmp, s, tree, leaf);
        root := root.right;
      }

      var x, y;
      ghost var m, k', u;
      PlugTop(tree);
      x, y, m, k', u := Remove(node, s, k, t, leaf);
      RenamedRedBlack(tree, m, node);
      UnhangRedBlack(k', u);
      WithoutSorted(cmp, before, node);
      if !multiSet {
        NoEqualsWithout(cmp, before, node);
      }
      ghost var w := RemoveFixup(x, y, s - {node}, k', OnlyChild(u), leaf);
      ResetRoot(s - {node}, w);
      items := items - 1;
      removed := y;
    }

    /** remove(): take out the first object (or the only one) matching the key, if there is one. */
    method RemoveKey(key: Object) returns (ok: bool)
      requires Valid()
      modifies this`root, this`tree, this`items, this`nodes, leaf, nodes
      ensures Valid()
      ensures ok <==> exists n :: n in old(Inorder(tree)) && CompareObjects(cmp, n.item, key) == 0
      ensures !ok ==> tree == old(tree) && root == old(root) && items == old(items) && nodes == old(nodes)
      ensures ok ==> exists i ::
        && IsMatch(cmp, old(Inorder(tree)), i, key, if multiSet then FindFirst else FindAny)
        && Inorder(tree) == Without(old(Inorder(tree)), old(Inorder(tree))[i])
      ensures ok && !multiSet ==> NoneEqual(cmp, Inorder(tree), key)
    {
      hide At, Nodes, RedBlack, Inorder, Plug, SortedNodes, Without, NoEquals;
      var node;
      ghost var i;
      node, i := FindNode(key, if multiSet then FindFirst else FindAny);
      if node == null {
        return false;
      }
      TopNodes(nodes, tree, leaf);
      InorderMembers(tree, node);
      if !multiSet {
        NodeOnce(nodes, tree, leaf);
        OnlyMatch(cmp, Inorder(tree), i, key);
      }
      var removed := RemoveNode(node);
      ok := true;
    }

    /** removeIt(): take out the iterator's node; the iterator moves on to its successor, which is still in the tree. */
    method RemoveIt(node: Node) returns (it: Node)
      requires Valid() && node in nodes && node.item.Val?
      modifies this`root, this`tree, this`items, this`nodes, leaf, nodes
      ensures Valid() && nodes == old(nodes) - {node}
      ensures Inorder(tree) == Without(old(Inorder(tree)), node)
      ensures NextAfter(old(Inorder(tree)), node, it, Inorder(tree))
    {
      hide At, Nodes, RedBlack, Inorder, Plug, Without, NoEquals;
      ghost var s, before := nodes, Inorder(tree);
      ghost var k, t := LocateAt(s, tree, node, leaf);
      ghost var k', t';
      var next;
      next, k', t' := Next(node, s, k, t, leaf);
      ThroughPrefix(k, t);
      FocusApart(s, k, t, leaf);
      NodesOnce(s, k, t, leaf, node);
      assert before == (Before(k) + Inorder(t.l)) + [node] + (Inorder(t.r) + After(k));
      NextKept(cmp, before, Before(k) + Inorder(t.l), node, Inorder(t.r) + After(k));
      var removed := RemoveNode(node);
      if removed == node {
        it := next;
      } else {
        it := node;
      }
    }

    /** begin(): an iterator for the first object, or for the sentinel if there is none. */
    method Begin() returns (node: Node)
      requires Valid()
      ensures node in nodes && node == Inorder(tree)[0]
    {
      PlugTop(tree);
      ghost var k, t;
      node, k, t := LeftMost(root, nodes, Top, tree, leaf);
    }

    /** end(): an iterator for the sentinel. */
    method End() returns (node: Node)
      requires Valid()
      ensures node in nodes && node == Inorder(tree)[|Inorder(tree)| - 1] && node.item == MaxObject
    {
      PlugTop(tree);
      ghost var k, t;
      node, k, t := RightMost(root, nodes, Top, tree, leaf);
    }

    /** forward(): follow next() dist times, stopping at the sentinel. */
    method Forward(node: Node, dist: nat, ghost i: nat) returns (res: Node)
      requires Valid() && i < |Inorder(tree)| && node == Inorder(tree)[i]
      ensures res == Inorder(tree)[if i + dist < |Inorder(tree)| then i + dist else |Inorder(tree)| - 1]
    {
      hide At, Nodes, RedBlack, Inorder, Plug, SortedNodes, NoEquals;
      res := node;
      var d := dist;
      ghost var k, t := LocateIndex(nodes, tree, i, leaf);
      while d > 0
        invariant 0 <= d <= dist && At(nodes, k, t, leaf) && Plug(k, t) == tree && t.Bin? && res == t.n
        invariant var j := i + (dist - d); |Through(k, t)| == j + 1 <= |Inorder(tree)| && res == Inorder(tree)[j]
      {
        var next;
        ghost var k', t';
        next, k', t' := Next(res, nodes, k, t, leaf);
        if next == null {
          break;
        }
        res, k, t := next, k', t';
        d := d - 1;
      }
    }

    /** reverse(): follow prev() dist times, stopping at the first node. */
    method Reverse(node: Node, dist: nat, ghost i: nat) returns (res: Node)
      requires Valid() && i < |Inorder(tree)| && node == Inorder(tree)[i]
      ensures res == Inorder(tree)[if i >= dist then i - dist else 0]
    {
      hide At, Nodes, RedBlack, Inorder, Plug, SortedNodes, NoEquals;
      res := node;
      var d := dist;
      ghost var k, t := LocateIndex(nodes, tree, i, leaf);
      while d > 0
        invariant 0 <= d <= dist && At(nodes, k, t, leaf) && Plug(k, t) == tree && t.Bin? && res == t.n
        invariant var j := i - (dist - d);
          0 <= j < |Inorder(tree)| && |Through(k, t)| == j + 1 && res == Inorder(tree)[j]
      {
        var prev;
        ghost var k', t';
        FromSuffix(k, t);
        prev, k', t' := Prev(res, nodes, k, t, leaf);
        if prev == null {
          break;
        }
        FromSuffix(k', t');
        res, k, t := prev, k', t';
        d := d - 1;
      }
    }
  }

  /** `it` followed node in s, and stands where node stood in s'. */
  ghost predicate NextAfter(s: seq<Node>, node: Node, it: Node, s': seq<Node>) {
    exists i :: 0 <= i < |s| - 1 && s[i] == node && s[i + 1] == it && i < |s'| && s'[i] == it
  }

  lemma NextKept(cmp: Ordering, s: seq<Node>, p: seq<Node>, node: Node, q: seq<Node>)
    requires s == p + [node] + q && node !in p && SortedNodes(cmp, s) && node.item.Val?
    ensures q != [] && NextAfter(s, node, q[0], Without(s, node))
  {
    WithoutAt(p, node, q);
    var i := |p|;
    assert s[i] == node;
    assert s[i + 1] == q[0] && (p + q)[i] == q[0];
  }

  /** The node at a given place of the order, in focus. */
  lemma LocateIndex(s: set<Node>, w: Tree, i: nat, leaf: Node) returns (k: Ctx, t: Tree)
    requires At(s, Top, w, leaf) && i < |Inorder(w)|
    ensures At(s, k, t, leaf) && Plug(k, t) == w && t.Bin? && t.n == Inorder(w)[i] && |Through(k, t)| == i + 1
  {
    var n := Inorder(w)[i];
    TopNodes(s, w, leaf);
    InorderMembers(w, n);
    k, t := LocateAt(s, w, n, leaf);
    ThroughPrefix(k, t);
    InorderOnce(w);
    assert Inorder(w)[|Through(k, t)| - 1] == n;
  }

  lemma HoleInorder(k: Ctx)
    ensures Inorder(Plug(k, Leaf)) == Before(k) + After(k) && Inorder(Leaf) == []
  {
    PlugInorder(k, Leaf);
  }

  lemma HoleAt(s: seq<Node>, i: nat, f: seq<Node>, p: seq<Node>, q: seq<Node>)
    requires s == p + q && q == f && i <= |s| && |f| == |s| - i
    ensures p == s[..i] && q == s[i..]
  {}

  lemma LastOfRightless(w: Tree)
    requires w.Bin? && w.r.Leaf?
    ensures Inorder(w)[|Inorder(w)| - 1] == w.n
  {}

  /** The sentinel is to the right of the root, if it is not the root. */
  lemma SentinelRight(cmp: Ordering, s: set<Node>, w: Tree, leaf: Node)
    requires At(s, Top, w, leaf) && w.Bin? && SortedNodes(cmp, Inorder(w)) && w.n.item.Val?
    ensures w.r.Bin? && w.n.right == w.r.n && w.r.n in s && w.r.n != w.n
  {
    Fields(s, Top, w, leaf);
    if w.r.Leaf? {
      LastOfRightless(w);
    } else {
      assert w.r.n in Nodes(w.r);
    }
  }

  lemma {:induction false} WithoutSplit(s: seq<Node>, z: Node) returns (i: nat)
    requires z in s
    ensures i < |s| && s[i] == z && Without(s, z) == s[..i] + s[i + 1..]
  {
    if s[0] == z {
      i := 0;
    } else {
      i := WithoutSplit(s[1..], z);
      i := i + 1;
      assert s[..i] + s[i + 1..] == [s[0]] + (s[1..][..i - 1] + s[1..][i..]);
    }
  }

  /** Taking an object's node out leaves the sequence sorted. */
  lemma WithoutSorted(cmp: Ordering, s: seq<Node>, z: Node)
    requires SortedNodes(cmp, s) && z in s && z.item.Val?
    ensures SortedNodes(cmp, Without(s, z)) && |Without(s, z)| == |s| - 1 && Without(s, z) != []
  {
    hide Without;
    var i := WithoutSplit(s, z);
    var s' := Without(s, z);
    forall j | 0 <= j < |s'|
      ensures s'[j] == s[if j < i then j else j + 1]
    {}
  }

  /** A black node without children is a tree. */
  lemma Alone(n: Node, leaf: Node)
    requires LeafOk(leaf) && leaf.item == Nil && n.item != Nil && n != leaf
    requires n.left == leaf == n.right && n.parent == null && n.color == Black
    ensures var t := Bin(Leaf, n, Black, Leaf);
      At({n}, Top, t, leaf) && RedBlack(t) && Inorder(t) == [n]
  {
    var t := Bin(Leaf, n, Black, Leaf);
    assert Nodes(t) == {n};
    assert Snap({n})[n] == FocusLink(Top, t, leaf, n);
  }

  /** Leaves are always coloured black. */
  method PaintLeaf(leaf: Node, ghost s: set<Node>, ghost k: Ctx, ghost t: Tree)
    requires At(s, k, t, leaf)
    modifies leaf`color
    ensures At(s, k, t, leaf)
  {
    ghost var h := Snap(s);
    leaf.color := Black;
    assert Snap(s) == h;
  }

  lemma LocateAt(s: set<Node>, w: Tree, n: Node, leaf: Node) returns (k: Ctx, t: Tree)
    requires At(s, Top, w, leaf) && n in s
    ensures At(s, k, t, leaf) && Plug(k, t) == w && t.Bin? && t.n == n
  {
    k, t := Locate(Top, w, n);
    PlugTop(w);
    FromTop(s, k, t, leaf);
  }

  /** What putting a new node into a sorted sequence at the right place does to the sequence and to the objects. */
  lemma AddedAll(cmp: Ordering, p: seq<Node>, node: Node, q: seq<Node>, o: Object, s: seq<Node>)
    requires IsOrdering(cmp) && s == p + q && SortedNodes(cmp, s) && AllBelow(cmp, p, o) && NoneBelow(cmp, q, o)
    requires node.item == Val(o) && node !in s
    ensures var s' := p + [node] + q;
      && SortedNodes(cmp, s') && |s'| == |s| + 1 && AddedInOrder(cmp, Held(s), o, Held(s'))
      && node in s' && Without(s', node) == s
  {
    AddedSorted(cmp, p, node, q, o);
    AddedHeld(cmp, p, node, q, o);
    assert forall i :: 0 <= i < |p| ==> s[i] == p[i];
    WithoutAt(p, node, q);
    assert (p + [node] + q)[|p|] == node;
  }

  lemma ItemsHeld(s: set<Node>, k: Ctx, t: Tree, leaf: Node)
    requires At(s, k, t, leaf)
    ensures RootOf(t, leaf).IsLeaf() <==> t.Leaf?
  {
    Fields(s, k, t, leaf);
  }

  lemma RootIn(w: Tree)
    requires w.Bin?
    ensures w.n in Nodes(w)
  {}

  lemma TopNodes(s: set<Node>, w: Tree, leaf: Node)
    requires At(s, Top, w, leaf)
    ensures Nodes(w) == s && leaf !in s && leaf.color == Black
  {}

  lemma NodeOnce(s: set<Node>, w: Tree, leaf: Node)
    requires At(s, Top, w, leaf)
    ensures forall i, j :: 0 <= i < j < |Inorder(w)| ==> Inorder(w)[i] != Inorder(w)[j]
  {
    InorderOnce(w);
  }

  lemma PaintedRoot(w: Tree)
    requires w.Bin? && RedBlack(w)
    ensures RedBlack(Painted(w, Black)) && Inorder(Painted(w, Black)) == Inorder(w)
            && Nodes(Painted(w, Black)) == Nodes(w)
  {}

  lemma HungAdded(k: Ctx, w: Tree, node: Node)
    requires Plug(k, Leaf) == w && RedBlack(w) && w.Bin? && w.c == Black
    ensures Added(k, Bin(Leaf, node, Red, Leaf))
    ensures Inorder(Plug(k, Bin(Leaf, node, Red, Leaf))) == Before(k) + [node] + After(k)
    ensures Inorder(w) == Before(k) + After(k)
  {
    assert Inorder(Bin(Leaf, node, Red, Leaf)) == [node];
    PlugInorder(k, Bin(Leaf, node, Red, Leaf));
    PlugInorder(k, Leaf);
    PlugRedBlack(k, Leaf);
    PlugTopBlack(k, Leaf);
  }
}
