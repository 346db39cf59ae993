/** The links between nodes: trees and paths that a heap of linked nodes describes. */
module Links {
  import opened TreeShape

  datatype Link = Link(color: Color, parent: Node?, left: Node?, right: Node?) {
    function Child(s: Side): Node? {
      if s.ToLeft? then left else right
    }

    function WithChild(s: Side, n: Node?): Link {
      if s.ToLeft? then this.(left := n) else this.(right := n)
    }
  }

  /** The fields of a set of nodes at one moment. */
  type Links = map<Node, Link>

  /** The links at and below `n` describe `t`, and `n` hangs off `parent`. */
  ghost predicate Shape(m: Links, t: Tree, n: Node?, parent: Node?) {
    match t
    case Leaf => n == null
    case Branch(l, x, c, r) =>
      && n == x && x in m && m[x].color == c && m[x].parent == parent
      && Shape(m, l, m[x].left, x) && Shape(m, r, m[x].right, x)
  }

  /** The links from the root down to the place where `hole` hangs describe `p`. */
  ghost predicate PathShape(m: Links, root: Node?, p: Path, hole: Node?) {
    match p
    case Top => root == hole
    case In(side, up, x, c, s) =>
      && x in m && m[x].Child(side) == hole && m[x].color == c && m[x].parent == ParentOf(up)
      && Shape(m, s, m[x].Child(side.Other()), x) && PathShape(m, root, up, x)
  }

  /** The whole heap, with the focus at `t`. */
  ghost predicate At(m: Links, root: Node?, t: Tree, p: Path) {
    Apart(t, p) && Shape(m, t, Root(t), ParentOf(p)) && PathShape(m, root, p, Root(t))
  }

  ghost predicate Agree(m: Links, k: Links, s: set<Node>) {
    forall x :: x in s && x in m ==> x in k && k[x] == m[x]
  }

  lemma {:induction false} ShapeFrame(m: Links, k: Links, t: Tree, n: Node?, parent: Node?)
    requires Shape(m, t, n, parent) && Agree(m, k, Nodes(t))
    ensures Shape(k, t, n, parent) && n == Root(t)
  {
    if t.Branch? {
      ShapeFrame(m, k, t.left, m[t.node].left, t.node);
      ShapeFrame(m, k, t.right, m[t.node].right, t.node);
    }
  }

  lemma {:induction false} PathFrame(m: Links, k: Links, root: Node?, p: Path, hole: Node?)
    requires PathShape(m, root, p, hole) && Agree(m, k, PathNodes(p))
    ensures PathShape(k, root, p, hole)
  {
    if p.In? {
      ShapeFrame(m, k, p.sibling, m[p.node].Child(p.side.Other()), p.node);
      PathFrame(m, k, root, p.up, p.node);
    }
  }

  lemma SubShape(m: Links, t: Tree, n: Node?, parent: Node?, s: Side)
    requires t.Branch? && Shape(m, t, n, parent)
    ensures t.node in m
    ensures Shape(m, Sub(t, s), m[t.node].Child(s), t.node) && m[t.node].Child(s) == Root(Sub(t, s))
  {
  }

  /** The links after the hole of `p` got another occupant, and the root that goes with them. */
  ghost function Rehung(m: Links, p: Path, child: Node?): Links
    requires p.In? ==> p.node in m
  {
    if p.Top? then m else m[p.node := m[p.node].WithChild(p.side, child)]
  }

  ghost function RehungRoot(root: Node?, p: Path, child: Node?): Node? {
    if p.Top? then child else root
  }

  lemma RehungShape(m: Links, k: Links, root: Node?, p: Path, was: Node?, child: Node?)
    requires SeparatePath(p) && PathShape(m, root, p, was)
    requires Agree(Rehung(m, p, child), k, PathNodes(p))
    ensures PathShape(k, RehungRoot(root, p, child), p, child)
  {
    if p.In? {
      var x := p.node;
      assert x in PathNodes(p);
      ShapeFrame(m, k, p.sibling, m[x].Child(p.side.Other()), x);
      PathFrame(m, k, root, p.up, x);
    }
  }

  lemma Readopted(m: Links, k: Links, t: Tree, n: Node?, parent: Node?, newParent: Node?)
    requires Separate(t) && Shape(m, t, n, parent)
    requires t.Branch? ==> Agree(m[t.node := m[t.node].(parent := newParent)], k, Nodes(t))
    ensures Shape(k, t, n, newParent) && n == Root(t)
  {
    if t.Branch? {
      ShapeFrame(m, k, t.left, m[n].left, n);
      ShapeFrame(m, k, t.right, m[n].right, n);
    }
  }

  /** Rotation towards side `d`: the child on the other side comes up. */
  ghost function Rotated(d: Side, t: Tree): Tree
    requires t.Branch? && Sub(t, d.Other()).Branch?
  {
    var s := Sub(t, d.Other());
    Join(d, Join(d, Sub(t, d), t.node, t.color, Sub(s, d)), s.node, s.color, Sub(s, d.Other()))
  }

  lemma RotatedApart(d: Side, t: Tree, p: Path)
    requires t.Branch? && Sub(t, d.Other()).Branch?
    requires Apart(t, p)
    ensures Apart(Rotated(d, t), p)
    ensures Nodes(Rotated(d, t)) == Nodes(t)
  {
    var s := Sub(t, d.Other());
    assert Nodes(s) == Nodes(Sub(s, d)) + {s.node} + Nodes(Sub(s, d.Other()));
    assert Separate(s);
    assert Separate(Join(d, Sub(t, d), t.node, t.color, Sub(s, d)));
  }

  lemma RotatedInorder(d: Side, t: Tree)
    requires t.Branch? && Sub(t, d.Other()).Branch?
    ensures Inorder(Rotated(d, t)) == Inorder(t)
  {
    var s := Sub(t, d.Other());
    if d.ToLeft? {
      assert Inorder(t.left) + [t.node] + (Inorder(s.left) + [s.node] + Inorder(s.right))
          == (Inorder(t.left) + [t.node] + Inorder(s.left)) + [s.node] + Inorder(s.right);
    } else {
      assert Inorder(s.left) + [s.node] + (Inorder(s.right) + [t.node] + Inorder(t.right))
          == (Inorder(s.left) + [s.node] + Inorder(s.right)) + [t.node] + Inorder(t.right);
    }
  }

  /** How a rotation of `x` towards `d` changes the links `m` to `k`; `y` is the child that
      comes up and `b` heads the subtree that changes hands. */
  ghost predicate Turned(d: Side, m: Links, k: Links, p: Path, x: Node, y: Node, b: Node?) {
    && x in m && x in k && k[x] == m[x].(parent := y).WithChild(d.Other(), b)
    && y in m && y in k && k[y] == m[y].(parent := ParentOf(p)).WithChild(d, x)
    && (b != null ==> b in m && b in k && k[b] == m[b].(parent := x))
    && (p.In? ==> p.node in m && p.node in k && k[p.node] == m[p.node].WithChild(p.side, y))
    && forall z :: z in m && z != x && z != y && z != b && z != ParentOf(p) ==> z in k && k[z] == m[z]
  }

  /** Who takes part in a rotation, and that they are all different. */
  lemma Participants(d: Side, m: Links, root: Node?, t: Tree, p: Path)
    requires t.Branch? && Sub(t, d.Other()).Branch? && At(m, root, t, p)
    ensures var x, u, q := t.node, Sub(t, d.Other()), ParentOf(p);
      var y, b := u.node, Root(Sub(u, d));
      && x in m && m[x].parent == q && m[x].Child(d.Other()) == y
      && y in m && m[y].Child(d) == b && x != y
      && (b != null ==> b in m && b != x && b != y)
      && (q == null ==> root == x)
      && (q != null ==>
        q in m && q != x && q != y && q != b && m[q].Child(p.side) == x && m[q].Child(p.side.Other()) != x)
  {
    var u := Sub(t, d.Other());
    SubShape(m, t, t.node, ParentOf(p), d.Other());
    SubShape(m, u, u.node, t.node, d);
    assert Sub(u, d).Branch? ==> Root(Sub(u, d)) in Nodes(Sub(u, d));
    if p.In? {
      assert p.node in PathNodes(p);
      ShapeFrame(m, m, p.sibling, m[p.node].Child(p.side.Other()), p.node);
    }
  }

  /** A rotation leaves all other nodes alone. */
  lemma Untouched(d: Side, m: Links, k: Links, p: Path, x: Node, y: Node, r: Node?, s: set<Node>)
    requires Turned(d, m, k, p, x, y, r)
    requires x !in s && y !in s && r !in s && ParentOf(p) !in s
    ensures Agree(m, k, s)
  {
  }

  /** A subtree that keeps its parent in a rotation. */
  lemma TurnedAside(d: Side, m: Links, k: Links, p: Path, x: Node, y: Node, r: Node?, t: Tree, n: Node?, parent: Node)
    requires Turned(d, m, k, p, x, y, r) && Shape(m, t, n, parent)
    requires x !in Nodes(t) && y !in Nodes(t) && r !in Nodes(t) && ParentOf(p) !in Nodes(t)
    ensures Shape(k, t, n, parent)
  {
    hide Shape, Turned;
    Untouched(d, m, k, p, x, y, r, Nodes(t));
    ShapeFrame(m, k, t, n, parent);
  }

  /** The subtree that changes its parent. */
  lemma TurnedInside(d: Side, m: Links, k: Links, p: Path, x: Node, y: Node, b: Tree, n: Node?)
    requires Turned(d, m, k, p, x, y, Root(b)) && Separate(b) && Shape(m, b, n, y)
    requires x !in Nodes(b) && y !in Nodes(b) && ParentOf(p) !in Nodes(b)
    ensures Shape(k, b, n, x)
  {
    Readopted(m, k, b, n, y, x);
  }

  /** The way up. */
  lemma TurnedAbove(d: Side, m: Links, k: Links, root: Node?, p: Path, x: Node, y: Node, r: Node?)
    requires Turned(d, m, k, p, x, y, r) && SeparatePath(p) && PathShape(m, root, p, x)
    requires x !in PathNodes(p) && y !in PathNodes(p) && r !in PathNodes(p)
    ensures PathShape(k, RehungRoot(root, p, y), p, y)
  {
    RehungShape(m, k, root, p, x, y);
  }

  lemma TurnedLinks(d: Side, m: Links, k: Links, p: Path, x: Node, y: Node, r: Node?)
    requires Turned(d, m, k, p, x, y, r) && x != y
    ensures x in m && y in m && x in k && y in k
    ensures k[x].Child(d) == m[x].Child(d) && k[x].Child(d.Other()) == r
    ensures k[y].Child(d.Other()) == m[y].Child(d.Other())
  {
  }

  /** The nodes whose links change are in none of the other pieces. */
  lemma Bystanders(p: Path, a: Tree, b: Tree, c: Tree)
    requires Nodes(a) !! Nodes(b) !! Nodes(c) !! PathNodes(p)
    ensures ParentOf(p) !in Nodes(a) && ParentOf(p) !in Nodes(b) && ParentOf(p) !in Nodes(c)
    ensures Root(b) !in Nodes(a) && Root(b) !in Nodes(c) && Root(b) !in PathNodes(p)
  {
    assert p.In? ==> p.node in PathNodes(p);
    assert b.Branch? ==> b.node in Nodes(b);
  }

  /** The rotation piece by piece: three subtrees, two nodes and the way up, all apart. */
  lemma TurnedPieces(d: Side, m: Links, k: Links, root: Node?, p: Path, x: Node, y: Node, a: Tree, b: Tree, c: Tree)
    requires Turned(d, m, k, p, x, y, Root(b))
    requires x != y && x !in Nodes(a) && x !in Nodes(b) && x !in Nodes(c) && x !in PathNodes(p)
    requires y !in Nodes(a) && y !in Nodes(b) && y !in Nodes(c) && y !in PathNodes(p)
    requires Nodes(a) !! Nodes(b) !! Nodes(c) !! PathNodes(p)
    requires SeparatePath(p) && Separate(b)
    requires Shape(m, a, m[x].Child(d), x)
    requires Shape(m, b, m[y].Child(d), y) && m[y].Child(d) == Root(b)
    requires Shape(m, c, m[y].Child(d.Other()), y)
    requires PathShape(m, root, p, x)
    ensures Shape(k, a, k[x].Child(d), x)
    ensures Shape(k, b, k[x].Child(d.Other()), x)
    ensures Shape(k, c, k[y].Child(d.Other()), y)
    ensures PathShape(k, RehungRoot(root, p, y), p, y)
  {
    hide Shape, PathShape, Nodes, PathNodes, Separate, SeparatePath, Turned;
    var r := Root(b);
    Bystanders(p, a, b, c);
    TurnedLinks(d, m, k, p, x, y, r);
    TurnedAside(d, m, k, p, x, y, r, a, m[x].Child(d), x);
    TurnedAside(d, m, k, p, x, y, r, c, m[y].Child(d.Other()), y);
    TurnedInside(d, m, k, p, x, y, b, m[y].Child(d));
    TurnedAbove(d, m, k, root, p, x, y, r);
  }

  lemma TurnedShape(d: Side, m: Links, k: Links, root: Node?, t: Tree, p: Path)
    requires t.Branch? && Sub(t, d.Other()).Branch? && At(m, root, t, p)
    requires var u := Sub(t, d.Other()); Turned(d, m, k, p, t.node, u.node, Root(Sub(u, d)))
    ensures At(k, RehungRoot(root, p, Sub(t, d.Other()).node), Rotated(d, t), p)
  {
    var x, u := t.node, Sub(t, d.Other());
    var y, a, b, c := u.node, Sub(t, d), Sub(u, d), Sub(u, d.Other());
    SubShape(m, t, x, ParentOf(p), d);
    SubShape(m, t, x, ParentOf(p), d.Other());
    SubShape(m, u, y, x, d);
    SubShape(m, u, y, x, d.Other());
    RotatedApart(d, t, p);
    assert Nodes(u) == Nodes(b) + {y} + Nodes(c);
    assert Separate(u);
    TurnedPieces(d, m, k, root, p, x, y, a, b, c);
    assert Shape(k, Join(d, a, x, t.color, b), x, y);
  }

  /** The focus moves up and down without touching the heap. */
  lemma FocusUp(m: Links, root: Node?, t: Tree, p: Path)
    requires p.In? && At(m, root, t, p)
    ensures At(m, root, Wrap(p, t), p.up)
  {
    WrapApart(p, t);
  }

  /** A node hangs off its parent on one side only; the root has no parent. */
  lemma Hangs(m: Links, root: Node?, t: Tree, p: Path)
    requires t.Branch? && At(m, root, t, p)
    ensures t.node in m && m[t.node].parent == ParentOf(p) && m[t.node].color == t.color
    ensures p.Top? <==> root == t.node
    ensures p.In? ==> p.node in m && m[p.node].color == p.color && m[p.node].parent == ParentOf(p.up)
    ensures p.In? ==> m[p.node].Child(p.side) == t.node != m[p.node].Child(p.side.Other()) == Root(p.sibling)
  {
    if p.In? {
      assert p.node in PathNodes(p);
      ShapeFrame(m, m, p.sibling, m[p.node].Child(p.side.Other()), p.node);
      RootInPath(m, root, p, t.node);
    }
  }

  ghost predicate RedLink(m: Links, n: Node?) {
    n != null && n in m && m[n].color == Red
  }

  /** What the parent and grandparent links of a node in focus lead to. */
  lemma HangsTwice(m: Links, root: Node?, t: Tree, p: Path)
    requires t.Branch? && p.In? && p.up.In? && At(m, root, t, p)
    ensures var g, z := Wrap(p.up, Wrap(p, t)), p.up.node;
      && p.node in m && m[p.node].parent == z && z in m
      && (m[z].left != null ==> m[z].left in m) && (m[z].right != null ==> m[z].right in m)
      && (IsRed(g.left) <==> RedLink(m, m[z].left)) && (IsRed(g.right) <==> RedLink(m, m[z].right))
      && At(m, root, g, p.up.up)
  {
    Hangs(m, root, t, p);
    FocusUp(m, root, t, p);
    Hangs(m, root, Wrap(p, t), p.up);
    FocusUp(m, root, Wrap(p, t), p.up);
  }

  lemma {:induction false} RootInPath(m: Links, root: Node?, p: Path, hole: Node?)
    requires p.In? && PathShape(m, root, p, hole)
    ensures root != null && root in PathNodes(p)
  {
    if p.up.In? {
      RootInPath(m, root, p.up, p.node);
    }
  }

  /** The path to the child on side `s`. */
  ghost function Down(t: Tree, p: Path, s: Side): Path
    requires t.Branch?
  {
    In(s, p, t.node, t.color, Sub(t, s.Other()))
  }

  lemma FocusDown(m: Links, root: Node?, t: Tree, p: Path, s: Side)
    requires t.Branch? && At(m, root, t, p)
    ensures At(m, root, Sub(t, s), Down(t, p, s))
    ensures t.node in m && m[t.node].Child(s) == Root(Sub(t, s))
  {
    WrapApart(Down(t, p, s), Sub(t, s));
    SubShape(m, t, t.node, ParentOf(p), s);
    SubShape(m, t, t.node, ParentOf(p), s.Other());
  }

  lemma {:induction false} FocusTop(m: Links, root: Node?, t: Tree, p: Path)
    requires At(m, root, t, p)
    ensures At(m, root, Plug(p, t), Top)
    decreases p
  {
    if p.In? {
      FocusUp(m, root, t, p);
      FocusTop(m, root, Wrap(p, t), p.up);
    }
  }

  /** The path to the sibling of the focus. */
  ghost function Across(t: Tree, p: Path): Path
    requires p.In?
  {
    In(p.side.Other(), p.up, p.node, p.color, t)
  }

  lemma FocusAcross(m: Links, root: Node?, t: Tree, p: Path)
    requires p.In? && At(m, root, t, p)
    ensures At(m, root, p.sibling, Across(t, p))
    ensures Across(p.sibling, Across(t, p)) == p
  {
    FocusUp(m, root, t, p);
    FocusDown(m, root, Wrap(p, t), p.up, p.side.Other());
  }

  /** What the links around a sibling lead to. */
  lemma SiblingLinks(m: Links, root: Node?, t: Tree, p: Path)
    requires t.Branch? && p.In? && p.sibling.Branch? && At(m, root, t, p)
    ensures var x, y, z, s := t.node, p.node, p.sibling.node, p.sibling;
      && x in m && m[x].parent == y && y in m && m[y].color == p.color
      && m[y].Child(p.side) == x != m[y].Child(p.side.Other()) == z
      && z in m && m[z].color == s.color && m[z].left == Root(s.left) && m[z].right == Root(s.right)
      && (m[z].left != null ==> m[z].left in m) && (m[z].right != null ==> m[z].right in m)
      && (IsRed(s.left) <==> RedLink(m, m[z].left)) && (IsRed(s.right) <==> RedLink(m, m[z].right))
  {
    Hangs(m, root, t, p);
    FocusAcross(m, root, t, p);
    Hangs(m, root, p.sibling, Across(t, p));
    FocusDown(m, root, p.sibling, Across(t, p), ToLeft);
    FocusDown(m, root, p.sibling, Across(t, p), ToRight);
  }

  /** Every node of a tree can be brought into focus. */
  lemma {:induction false} FocusOn(m: Links, root: Node?, t: Tree, p: Path, x: Node) returns (s: Tree, q: Path)
    requires At(m, root, t, p) && x in Nodes(t)
    ensures s.Branch? && s.node == x && At(m, root, s, q) && Plug(q, s) == Plug(p, t)
  {
    if t.node == x {
      s, q := t, p;
    } else {
      var d := if x in Nodes(t.left) then ToLeft else ToRight;
      FocusDown(m, root, t, p, d);
      s, q := FocusOn(m, root, Sub(t, d), Down(t, p, d), x);
    }
  }

  /** The empty place on side `d` below a node of the tree. */
  lemma EmptyPlace(m: Links, root: Node?, t: Tree, parent: Node, d: Side, x: Node) returns (p: Path)
    requires At(m, root, t, Top) && RedBlack(t) && parent in Nodes(t)
    requires parent in m && m[parent].Child(d) == null
    ensures At(m, root, Leaf, p) && p.In? && p.node == parent && p.side == d
    ensures Plug(p, Leaf) == t && PathBalanced(p, 0)
    ensures PathNodes(p) == Nodes(t)
    ensures InsertedBeside(Inorder(t), Before(p) + [x] + After(p), parent, d, x)
  {
    var s, q := FocusOn(m, root, t, Top, parent);
    FocusDown(m, root, s, q, d);
    p := Down(s, q, d);
    assert Wrap(p, Leaf) == s;
    var h := UnplugBalanced(p, Leaf);
    PlugNodes(p, Leaf);
    PlugInorder(p, Leaf);
    PlugInorder(q, s);
    var was, i := Inorder(t), |Before(q)| + |Inorder(s.left)|;
    assert was == Before(q) + (Inorder(s.left) + [parent] + Inorder(s.right)) + After(q);
    assert was[i] == parent;
    var j := if d.ToLeft? then i else i + 1;
    assert was[..j] == Before(p) && was[j..] == After(p);
    assert Before(p) + [x] + After(p) == Inserted(was, j, x);
  }

  /** How the links `m` change to `k` when `x` rises to the place that hangs off the path `p`. */
  ghost predicate Risen(m: Links, k: Links, p: Path, x: Node) {
    && x in m && x in k && k[x] == m[x].(parent := ParentOf(p)) && x != ParentOf(p)
    && (p.In? ==> p.node in m && p.node in k && k[p.node] == m[p.node].WithChild(p.side, x))
    && forall z :: z in m && z != x && z != ParentOf(p) ==> z in k && k[z] == m[z]
  }

  /** The focus gives way to one of its children. */
  lemma Spliced(m: Links, k: Links, root: Node?, t: Tree, p: Path, d: Side)
    requires t.Branch? && Sub(t, d).Branch? && At(m, root, t, p)
    requires Risen(m, k, p, Sub(t, d).node)
    ensures At(k, RehungRoot(root, p, Sub(t, d).node), Sub(t, d), p)
  {
    var c := Sub(t, d);
    assert c.node !in PathNodes(p);
    assert Agree(Rehung(m, p, c.node), k, PathNodes(p));
    SubShape(m, t, t.node, ParentOf(p), d);
    assert p.In? ==> p.node in PathNodes(p);
    assert c.node in Nodes(c) && Nodes(c) <= Nodes(t);
    Readopted(m, k, c, c.node, t.node, ParentOf(p));
    RehungShape(m, k, root, p, t.node, c.node);
  }

  /** The focus is cut off. */
  lemma CutOffShape(m: Links, k: Links, root: Node?, t: Tree, p: Path)
    requires t.Branch? && At(m, root, t, p)
    requires (p.In? ==> p.node in m) && Agree(Rehung(m, p, null), k, PathNodes(p))
    ensures At(k, RehungRoot(root, p, null), Leaf, p)
  {
    RehungShape(m, k, root, p, t.node, null);
  }

  /** Attaching a fresh node in an empty place. */
  lemma Attached(m: Links, k: Links, root: Node?, p: Path, x: Node)
    requires At(m, root, Leaf, p)
    requires x !in PathNodes(p) && x in k && k[x] == Link(Red, ParentOf(p), null, null)
    requires Agree(Rehung(m, p, x), k, PathNodes(p))
    ensures At(k, RehungRoot(root, p, x), Branch(Leaf, x, Red, Leaf), p)
  {
    RehungShape(m, k, root, p, null, x);
  }

  lemma Painted(m: Links, root: Node?, t: Tree, p: Path, c: Color)
    requires t.Branch? && At(m, root, t, p)
    ensures t.node in m
    ensures At(m[t.node := m[t.node].(color := c)], root, t.(color := c), p)
  {
    var x := t.node;
    var k := m[x := m[x].(color := c)];
    SubShape(m, t, x, ParentOf(p), ToLeft);
    SubShape(m, t, x, ParentOf(p), ToRight);
    ShapeFrame(m, k, t.left, m[x].left, x);
    ShapeFrame(m, k, t.right, m[x].right, x);
    PathFrame(m, k, root, p, x);
  }

  /** The grandparent of the focus, painted red, above its parent, painted black. */
  ghost function LiftPainted(t: Tree, p: Path): (g: Tree)
    requires p.In? && p.up.In?
    ensures g.Branch?
  {
    var s := Wrap(p, t);
    var g := Wrap(p.up, s.(color := Black));
    g.(color := Red)
  }

  /** The links of a painted outer grandchild and of its parent. */
  lemma LiftLinks(m: Links, root: Node?, t: Tree, p: Path)
    requires t.Branch? && p.In? && p.up.In? && p.side == p.up.side && At(m, root, LiftPainted(t, p), p.up.up)
    ensures t.node in m && m[t.node].parent == p.node && p.node in m && m[p.node].parent == p.up.node
    ensures m[p.node].Child(p.side) == t.node != m[p.node].Child(p.side.Other())
    ensures p.up.node in m && m[p.up.node].Child(p.side) == p.node != m[p.up.node].Child(p.side.Other())
  {
    var g, s := LiftPainted(t, p), Wrap(p, t).(color := Black);
    FocusDown(m, root, g, p.up.up, p.side);
    var q := Down(g, p.up.up, p.side);
    Hangs(m, root, s, q);
    FocusDown(m, root, s, q, p.side);
    Hangs(m, root, t, Down(s, q, p.side));
  }

  lemma LiftedBalanced(t: Tree, p: Path, h: nat)
    requires t.Branch? && IsRed(t) && Balanced(t, h)
    requires p.In? && p.color == Red && Balanced(p.sibling, h) && !IsRed(p.sibling)
    requires p.up.In? && p.side == p.up.side && Balanced(p.up.sibling, h) && !IsRed(p.up.sibling)
    ensures var u := Rotated(p.side.Other(), LiftPainted(t, p));
      Balanced(u, h + 1) && !IsRed(u) && Inorder(u) == Inorder(Wrap(p.up, Wrap(p, t)))
  {
    RotatedInorder(p.side.Other(), LiftPainted(t, p));
  }
}
