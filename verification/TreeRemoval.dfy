/** Removing a childless node: the tree as it will be once the node is cut off, and the
    rebalancing steps that make that tree red-black. */
module TreeRemoval {
  import opened TreeShape

  lemma TurnSequence(a: seq<Node>, x: Node, b: seq<Node>, y: Node, c: seq<Node>)
    ensures a + [x] + (b + [y] + c) == (a + [x] + b) + [y] + c
  {
  }

  /** A sequence without the first occurrence of `x`. */
  ghost function Without(s: seq<Node>, x: Node): seq<Node> {
    if s == [] then [] else if s[0] == x then s[1..] else [s[0]] + Without(s[1..], x)
  }

  lemma {:induction false} WithoutMiddle(a: seq<Node>, x: Node, b: seq<Node>)
    requires x !in a
    ensures Without(a + [x] + b, x) == a + b
  {
    if a == [] {
      assert a + [x] + b == [x] + b;
    } else {
      WithoutMiddle(a[1..], x, b);
      var s := a + [x] + b;
      assert s[0] == a[0] && s[1..] == a[1..] + [x] + b;
      assert a + b == [a[0]] + (a[1..] + b);
    }
  }

  lemma {:induction false} PathSequences(p: Path)
    ensures (set x | x in Before(p) + After(p)) == PathNodes(p)
  {
    if p.In? {
      PathSequences(p.up);
      NodesAreInorder(p.sibling);
    }
  }

  /** The tree once the subtree at `n` is cut off. */
  ghost function Cut(t: Tree, n: Node): Tree {
    if t.Leaf? || t.node == n then Leaf else Branch(Cut(t.left, n), t.node, t.color, Cut(t.right, n))
  }

  /** Where it occurs, `n` has no children. */
  ghost predicate Solo(t: Tree, n: Node) {
    t.Branch? ==>
      if t.node == n then t == Branch(Leaf, n, t.color, Leaf) else Solo(t.left, n) && Solo(t.right, n)
  }

  lemma {:induction false} CutAbsent(t: Tree, n: Node)
    requires n !in Nodes(t)
    ensures Cut(t, n) == t && Solo(t, n)
  {
    if t.Branch? {
      CutAbsent(t.left, n);
      CutAbsent(t.right, n);
    }
  }

  lemma {:induction false} CutPlug(p: Path, t: Tree, n: Node)
    requires n !in PathNodes(p)
    ensures Cut(Plug(p, t), n) == Plug(p, Cut(t, n))
    ensures Solo(Plug(p, t), n) <==> Solo(t, n)
  {
    if p.In? {
      CutAbsent(p.sibling, n);
      CutPlug(p.up, Wrap(p, t), n);
      assert Cut(Wrap(p, t), n) == Wrap(p, Cut(t, n));
    }
  }

  /** The subtree `t` below `p` is one black short once `n` is cut off. */
  ghost predicate Short(t: Tree, p: Path, n: Node, h: nat) {
    && n in Nodes(t) && Solo(t, n) && !IsRed(t)
    && Balanced(Cut(t, n), h) && !IsRed(Cut(t, n))
    && PathBalanced(p, h + 1)
  }

  /** `u` has the same nodes in the same order as `t` below `p`, and is red-black once `n` is cut off. */
  ghost predicate Settled(u: Tree, p: Path, t: Tree, n: Node) {
    && Inorder(u) == Inorder(Plug(p, t)) && n in Nodes(u) && Solo(u, n) && RedBlack(Cut(u, n))
  }

  /** A subtree that has regained its black height settles the whole tree. */
  lemma Settles(p: Path, t: Tree, n: Node, h: nat)
    requires n in Nodes(t) && n !in PathNodes(p) && Solo(t, n)
    requires Balanced(Cut(t, n), h) && PathBalanced(p, h) && (NeedsBlack(p) ==> !IsRed(Cut(t, n)))
    ensures Settled(Plug(p, t), p, t, n)
  {
    CutPlug(p, t, n);
    PlugNodes(p, t);
    PlugBalanced(p, Cut(t, n), h);
  }

  /** Sibling, its colour, and its children by side: `near` is the one next to the hole. */
  ghost predicate RedSibling(p: Path) {
    p.In? && IsRed(p.sibling)
  }

  ghost function Near(p: Path): Tree
    requires p.In? && p.sibling.Branch?
  {
    Sub(p.sibling, p.side)
  }

  ghost function Far(p: Path): Tree
    requires p.In? && p.sibling.Branch?
  {
    Sub(p.sibling, p.side.Other())
  }

  lemma SiblingExists(t: Tree, p: Path, n: Node, h: nat)
    requires Short(t, p, n, h) && p.In?
    ensures p.sibling.Branch?
    ensures IsRed(p.sibling) ==> p.color == Black && Near(p).Branch? && Far(p).Branch?
  {
    assert Balanced(p.sibling, h + 1);
    if IsRed(p.sibling) {
      assert Balanced(Near(p), h + 1) && Balanced(Far(p), h + 1);
    }
  }

  /** The path after the red sibling was painted black, the parent red, and the parent
      rotated towards the hole. */
  ghost function Lowered(p: Path): Path
    requires p.In? && p.sibling.Branch?
  {
    In(p.side, In(p.side, p.up, p.sibling.node, Black, Far(p)), p.node, Red, Near(p))
  }

  lemma LoweredShort(t: Tree, p: Path, n: Node, h: nat)
    requires Short(t, p, n, h) && RedSibling(p)
    ensures Short(t, Lowered(p), n, h) && !RedSibling(Lowered(p))
    ensures Inorder(Plug(Lowered(p), t)) == Inorder(Plug(p, t))
  {
    LoweredInorder(t, p);
  }

  lemma LoweredInorder(t: Tree, p: Path)
    requires p.In? && p.sibling.Branch?
    ensures Inorder(Plug(Lowered(p), t)) == Inorder(Plug(p, t))
  {
    var i, j, k := Inorder(t), Inorder(Near(p)), Inorder(Far(p));
    if p.side.ToLeft? {
      TurnSequence(i, p.node, j, p.sibling.node, k);
    } else {
      TurnSequence(k, p.sibling.node, j, p.node, i);
    }
    var q := Lowered(p);
    assert Inorder(Wrap(q.up, Wrap(q, t))) == Inorder(Wrap(p, t));
    PlugInorder(p.up, Wrap(p, t));
    PlugInorder(p.up, Wrap(q.up, Wrap(q, t)));
  }

  ghost predicate BlackNephews(p: Path) {
    p.In? && p.sibling.Branch? && p.sibling.color == Black && !IsRed(Near(p)) && !IsRed(Far(p))
  }

  /** Black nephews: the sibling turns red; a red parent turns black and settles the deficit,
      a black parent inherits it. */
  ghost function SiblingReddened(t: Tree, p: Path, c: Color): Tree
    requires p.In? && p.sibling.Branch?
  {
    Join(p.side, t, p.node, c, p.sibling.(color := Red))
  }

  lemma ReddenedShort(t: Tree, p: Path, n: Node, h: nat)
    requires Short(t, p, n, h) && BlackNephews(p) && n !in PathNodes(p)
    ensures var u := SiblingReddened(t, p, Black);
      && n in Nodes(u) && Solo(u, n) && Balanced(Cut(u, n), h + 1) && !IsRed(Cut(u, n))
      && PathBalanced(p.up, if p.color == Red then h + 1 else h + 2)
      && Inorder(Plug(p.up, u)) == Inorder(Plug(p, t))
  {
    CutAbsent(p.sibling, n);
    CutAbsent(p.sibling.(color := Red), n);
    PlugInorder(p.up, SiblingReddened(t, p, Black));
    PlugInorder(p.up, Wrap(p, t));
  }

  /** A red near nephew and a black far one: the sibling turns red, the nephew black and
      comes up by a rotation of the sibling away from the hole. */
  ghost function NephewLifted(p: Path): Path
    requires p.In? && p.sibling.Branch? && Near(p).Branch?
  {
    var y := Near(p);
    p.(sibling := Join(p.side, Sub(y, p.side), y.node, Black,
                       Join(p.side, Sub(y, p.side.Other()), p.sibling.node, Red, Far(p))))
  }

  lemma NephewLiftedShort(t: Tree, p: Path, n: Node, h: nat)
    requires Short(t, p, n, h) && p.In? && p.sibling.Branch? && p.sibling.color == Black
    requires IsRed(Near(p)) && !IsRed(Far(p))
    ensures Short(t, NephewLifted(p), n, h)
    ensures var q := NephewLifted(p); q.sibling.color == Black && IsRed(Far(q))
    ensures Inorder(Plug(NephewLifted(p), t)) == Inorder(Plug(p, t))
  {
    var y, b := Near(p), Join(p.side, Sub(Near(p), p.side.Other()), p.sibling.node, Red, Far(p));
    assert Balanced(p.sibling, h + 1) && Balanced(y, h) && Balanced(Far(p), h);
    assert Balanced(Sub(y, p.side), h) && Balanced(b, h);
    NephewLiftedInorder(p, t);
  }

  lemma NephewLiftedInorder(p: Path, t: Tree)
    requires p.In? && p.sibling.Branch? && Near(p).Branch?
    ensures Inorder(Plug(NephewLifted(p), t)) == Inorder(Plug(p, t))
  {
    PlugInorder(p, t);
    PlugInorder(NephewLifted(p), t);
    var y := Near(p);
    var f, x := Inorder(Far(p)), p.sibling.node;
    if p.side.ToLeft? {
      TurnSequence(Inorder(y.left), y.node, Inorder(y.right), x, f);
    } else {
      TurnSequence(f, x, Inorder(y.left), y.node, Inorder(y.right));
    }
    assert Inorder(NephewLifted(p).sibling) == Inorder(p.sibling);
  }

  /** A red far nephew: the sibling takes the colour of the parent and comes up by a rotation
      of the parent towards the hole; the parent and the far nephew turn black. */
  ghost function SiblingLifted(t: Tree, p: Path): Tree
    requires p.In? && p.sibling.Branch? && Far(p).Branch?
  {
    Join(p.side, Join(p.side, t, p.node, Black, Near(p)), p.sibling.node, p.color, Far(p).(color := Black))
  }

  lemma SiblingLiftedSettles(t: Tree, p: Path, n: Node, h: nat)
    requires Short(t, p, n, h) && p.In? && p.sibling.Branch? && p.sibling.color == Black && IsRed(Far(p))
    requires n !in PathNodes(p)
    ensures Settled(Plug(p.up, SiblingLifted(t, p)), p, t, n)
  {
    var u, s, f := SiblingLifted(t, p), Near(p), Far(p).(color := Black);
    assert Nodes(p.sibling) == Nodes(s) + {p.sibling.node} + Nodes(Far(p)) && Nodes(f) == Nodes(Far(p));
    assert Balanced(p.sibling, h + 1) && Balanced(s, h) && Balanced(Far(p), h) && Balanced(f, h + 1);
    CutAbsent(s, n);
    CutAbsent(f, n);
    assert Cut(u, n) == Join(p.side, Join(p.side, Cut(t, n), p.node, Black, s), p.sibling.node, p.color, f);
    Settles(p.up, u, n, if p.color == Red then h + 1 else h + 2);
    SiblingLiftedInorder(t, p);
  }

  lemma SiblingLiftedInorder(t: Tree, p: Path)
    requires p.In? && p.sibling.Branch? && Far(p).Branch?
    ensures Inorder(Plug(p.up, SiblingLifted(t, p))) == Inorder(Plug(p, t))
  {
    var u, i, j, k := SiblingLifted(t, p), Inorder(t), Inorder(Near(p)), Inorder(Far(p));
    if p.side.ToLeft? {
      TurnSequence(i, p.node, j, p.sibling.node, k);
    } else {
      TurnSequence(k, p.sibling.node, j, p.node, i);
    }
    assert Inorder(u) == Inorder(Wrap(p, t));
    PlugInorder(p.up, u);
    PlugInorder(p.up, Wrap(p, t));
  }

  lemma GoneAfter(a: seq<Node>, i: seq<Node>, n: Node, b: seq<Node>)
    requires Distinct(a + (i + [n]) + b)
    ensures Without(a + (i + [n]) + b, n) == a + i + b
  {
    assert a + (i + [n]) + b == (a + i) + [n] + b;
    DistinctParts(a + i, n, b);
    WithoutMiddle(a + i, n, b);
  }

  lemma GoneBefore(a: seq<Node>, n: Node, i: seq<Node>, b: seq<Node>)
    requires Distinct(a + ([n] + i) + b)
    ensures Without(a + ([n] + i) + b, n) == a + i + b
  {
    assert a + ([n] + i) + b == a + [n] + (i + b);
    DistinctParts(a, n, i + b);
    WithoutMiddle(a, n, i + b);
    assert a + (i + b) == a + i + b;
  }

  /** The in-order sequence when the subtree `s` at `n` gives way to its only child `c`. */
  lemma CutInorder(q: Path, s: Tree, n: Node, c: Tree)
    requires Separate(Plug(q, s)) && s.Branch? && s.node == n
    requires (s.left == c && s.right == Leaf) || (s.left == Leaf && s.right == c)
    ensures Inorder(Plug(q, c)) == Without(Inorder(Plug(q, s)), n)
    ensures |Inorder(Plug(q, c))| + 1 == |Inorder(Plug(q, s))|
  {
    PlugInorder(q, s);
    PlugInorder(q, c);
    InorderDistinct(Plug(q, s));
    if s.right == Leaf {
      assert Inorder(s) == Inorder(c) + [n];
      GoneAfter(Before(q), Inorder(c), n, After(q));
    } else {
      assert Inorder(s) == [n] + Inorder(c);
      GoneBefore(Before(q), n, Inorder(c), After(q));
    }
  }

  /** Neighbours differ only in who is left when one of the two is taken out. */
  lemma WithoutNeighbour(x: seq<Node>, a: Node, b: Node, y: seq<Node>)
    requires a !in x && a != b
    ensures Without(x + [b] + [a] + y, a) == Without(x + [a] + [b] + y, a)
  {
    assert a !in x + [b];
    WithoutMiddle(x + [b], a, y);
    WithoutMiddle(x, a, [b] + y);
    assert x + [a] + ([b] + y) == x + [a] + [b] + y;
    assert x + ([b] + y) == x + [b] + y;
  }

  /** What is left of `s` when its root is unhooked: its only child, if any. */
  ghost function Rest(s: Tree): Tree
    requires s.Branch?
  {
    if s.left.Branch? then s.left else s.right
  }

  /** In a red-black tree an only child is red and childless, and its parent is black. */
  lemma OnlyChild(s: Tree, q: Path, h: nat)
    requires Balanced(s, h) && s.Branch? && Rest(s).Branch? && (s.left == Leaf || s.right == Leaf)
    requires PathBalanced(q, h)
    ensures s.color == Black && IsRed(Rest(s))
    ensures RedBlack(Plug(q, Rest(s).(color := Black)))
  {
    var c := Rest(s).(color := Black);
    assert Balanced(c, 1);
    PlugBalanced(q, c, 1);
  }

  lemma SoloFocus(u: Tree, q: Path, s: Tree)
    requires Separate(u) && Plug(q, s) == u && s.Branch? && Solo(u, s.node)
    ensures s == Branch(Leaf, s.node, s.color, Leaf) && Cut(u, s.node) == Plug(q, Leaf)
  {
    PlugSeparate(q, s);
    CutPlug(q, s, s.node);
  }

  /** What removing the root `n` of `s` below `q` leaves, once its child took its place. */
  lemma RestLeft(q: Path, s: Tree, n: Node, c: Color)
    requires Separate(Plug(q, s)) && s.Branch? && s.node == n && (s.left == Leaf || s.right == Leaf)
    ensures var u := Plug(q, if Rest(s).Branch? then Rest(s).(color := c) else Leaf);
      && Inorder(u) == Without(Inorder(Plug(q, s)), n)
      && |Inorder(u)| + 1 == |Inorder(Plug(q, s))|
      && Nodes(u) == Nodes(Plug(q, s)) - {n}
  {
    var d := if Rest(s).Branch? then Rest(s).(color := c) else Leaf;
    CutInorder(q, s, n, Rest(s));
    PlugInorder(q, d);
    PlugInorder(q, Rest(s));
    PlugNodes(q, s);
    PlugNodes(q, d);
    PlugSeparate(q, s);
  }
}
