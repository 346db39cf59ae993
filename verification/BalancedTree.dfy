/** The self-balancing tree over linked nodes: rotations, insertion, removal, iteration. */
module BalancedTree {
  import opened TreeShape
  import opened Links
  import opened TreeExchange
  import opened TreeRemoval
  import opened TreeOrder

  /** The focus below a parent that was rotated towards it. */
  lemma LoweredFocus(m: Links, root: Node?, t: Tree, p: Path)
    requires p.In? && p.sibling.Branch?
    requires At(m, root, Rotated(p.side, Wrap(p.(sibling := p.sibling.(color := Black)).(color := Red), t)), p.up)
    ensures At(m, root, t, Lowered(p))
  {
    var u := Rotated(p.side, Wrap(p.(sibling := p.sibling.(color := Black)).(color := Red), t));
    FocusDown(m, root, u, p.up, p.side);
    FocusDown(m, root, Sub(u, p.side), Down(u, p.up, p.side), p.side);
  }

  /** Exchanging a node with the one in front of it changes nothing but their order. */
  lemma WithoutExchanged(t: Tree, node: Node, pred: Node, w: Tree, r: Path, rest: seq<Node>)
    requires w.Branch? && w.node == pred && w.right == Leaf && Plug(r, w) == t && After(r) == [node] + rest
      && Separate(t)
    ensures node != pred && |Inorder(Exchange(t, node, pred))| == |Inorder(t)|
    ensures Without(Inorder(Exchange(t, node, pred)), node) == Without(Inorder(t), node)
  {
    var x := Before(r) + Inorder(w.left);
    PlugInorder(r, w);
    assert Inorder(t) == x + [pred] + [node] + rest;
    InorderDistinct(t);
    NeighboursApart(x, node, pred, rest);
    ExchangeNeighbours(t, x, node, pred, rest);
    WithoutNeighbour(x, node, pred, rest);
  }

  class SelfBalancingTree {
    var root: Node?
    var size: int
    ghost var tree: Tree
    ghost var repr: set<Node>
    /** How often the tree was rotated. */
    ghost var turns: nat

    ghost function Heap(): Links
      reads this`repr, repr
    {
      map x | x in repr :: Link(x.color, x.parent, x.left, x.right)
    }

    /** The nodes of the tree are linked as `t`, seen from the hole of `p`. */
    ghost predicate Sees(t: Tree, p: Path)
      reads this`root, this`repr, repr
    {
      At(Heap(), root, t, p)
    }

    /** A well-linked red-black tree of `size` different nodes. */
    ghost predicate Valid()
      reads this, repr
    {
      Sees(tree, Top) && repr == Nodes(tree) && RedBlack(tree) && size == |Inorder(tree)|
    }

    constructor ()
      ensures Valid() && tree == Leaf && turns == 0
    {
      root, size := null, 0;
      tree, repr, turns := Leaf, {}, 0;
      new;
      assert Balanced(Leaf, 0);
    }

    method RotateLeft(node: Node, ghost t: Tree, ghost p: Path)
      requires t.Branch? && t.node == node && t.right.Branch? && Sees(t, p)
      modifies this`root, this`turns, repr`parent, repr`left, repr`right
      ensures Sees(Rotated(ToLeft, t), p) && turns == old(turns) + 1
    {
      hide Shape, PathShape, Separate, SeparatePath, Balanced;
      ghost var m := Heap();
      Participants(ToLeft, m, root, t, p);
      var parent := node.parent;
      var satellite := node.right;
      if parent != null {
        if parent.left == node {
          parent.left := satellite;
        } else {
          parent.right := satellite;
        }
      } else {
        root := satellite;
      }
      node.parent := satellite;
      node.right := satellite.left;
      if node.right != null {
        node.right.parent := node;
      }
      satellite.left := node;
      satellite.parent := parent;
      turns := turns + 1;
      ghost var k, b := Heap(), Root(t.right.left);
      assert k[node] == m[node].(parent := satellite, right := b);
      assert k[satellite] == m[satellite].(parent := parent, left := node);
      assert b != null ==> k[b] == m[b].(parent := node);
      assert parent != null ==> k[parent] == m[parent].WithChild(p.side, satellite);
      assert forall z :: z in m && z != node && z != satellite && z != b && z != parent ==> k[z] == m[z];
      TurnedShape(ToLeft, m, k, old(root), t, p);
    }

    method RotateRight(node: Node, ghost t: Tree, ghost p: Path)
      requires t.Branch? && t.node == node && t.left.Branch? && Sees(t, p)
      modifies this`root, this`turns, repr`parent, repr`left, repr`right
      ensures Sees(Rotated(ToRight, t), p) && turns == old(turns) + 1
    {
      hide Shape, PathShape, Separate, SeparatePath, Balanced;
      ghost var m := Heap();
      Participants(ToRight, m, root, t, p);
      var parent := node.parent;
      var satellite := node.left;
      if parent != null {
        if parent.right == node {
          parent.right := satellite;
        } else {
          parent.left := satellite;
        }
      } else {
        root := satellite;
      }
      node.parent := satellite;
      node.left := satellite.right;
      if node.left != null {
        node.left.parent := node;
      }
      satellite.right := node;
      satellite.parent := parent;
      turns := turns + 1;
      ghost var k, b := Heap(), Root(t.left.right);
      assert k[node] == m[node].(parent := satellite, left := b);
      assert k[satellite] == m[satellite].(parent := parent, right := node);
      assert b != null ==> k[b] == m[b].(parent := node);
      assert parent != null ==> k[parent] == m[parent].WithChild(p.side, satellite);
      assert forall z :: z in m && z != node && z != satellite && z != b && z != parent ==> k[z] == m[z];
      TurnedShape(ToRight, m, k, old(root), t, p);
    }

    method Paint(node: Node, c: Color, ghost t: Tree, ghost p: Path)
      requires t.Branch? && t.node == node && Sees(t, p)
      modifies repr`color
      ensures Sees(t.(color := c), p)
    {
      ghost var m := Heap();
      Painted(m, root, t, p, c);
      node.color := c;
      assert Heap() == m[node := m[node].(color := c)];
    }

    /** Both children of a black node turn black and the node itself red. */
    method Recolor(grandpa: Node, ghost g: Tree, ghost p: Path)
      requires g.Branch? && g.node == grandpa && IsRed(g.left) && IsRed(g.right) && Sees(g, p)
      modifies repr`color
      ensures Sees(Recolored(g), p)
    {
      FocusDown(Heap(), root, g, p, ToLeft);
      Paint(grandpa.left, Black, g.left, Down(g, p, ToLeft));
      ghost var l := g.left.(color := Black);
      FocusUp(Heap(), root, l, Down(g, p, ToLeft));
      ghost var g1 := Branch(l, g.node, g.color, g.right);
      FocusDown(Heap(), root, g1, p, ToRight);
      Paint(grandpa.right, Black, g.right, Down(g1, p, ToRight));
      ghost var r := g.right.(color := Black);
      FocusUp(Heap(), root, r, Down(g1, p, ToRight));
      Paint(grandpa, Red, Branch(l, g.node, g.color, r), p);
    }

    /** Turns an inner grandchild into an outer one: the focus moves to the old parent. */
    method Straighten(start: Node, ghost t: Tree, ghost p: Path, ghost h: nat)
      returns (node: Node, ghost v: Tree, ghost q: Path)
      requires t.Branch? && t.node == start && IsRed(t) && Balanced(t, h)
      requires p.In? && p.color == Red && Balanced(p.sibling, h) && !IsRed(p.sibling) && p.up.In?
      requires Sees(t, p)
      modifies this`root, this`turns, repr
      ensures v.Branch? && v.node == node && IsRed(v) && Balanced(v, h)
      ensures q.In? && q.color == Red && Balanced(q.sibling, h) && !IsRed(q.sibling)
      ensures q.side == p.up.side && q.up == p.up
      ensures Sees(v, q) && Inorder(Wrap(q, v)) == Inorder(Wrap(p, t))
      ensures turns <= old(turns) + 1
    {
      node, v, q := start, t, p;
      ghost var s := Wrap(p, t);
      Hangs(Heap(), root, t, p);
      FocusUp(Heap(), root, t, p);
      Hangs(Heap(), root, s, p.up);
      var grandpa := node.parent.parent;
      if node == node.parent.right && grandpa.left == node.parent {
        node := node.parent;
        RotateLeft(node, s, p.up);
        RotatedInorder(ToLeft, s);
        v, q := Rotated(ToLeft, s).left, Down(Rotated(ToLeft, s), p.up, ToLeft);
        FocusDown(Heap(), root, Rotated(ToLeft, s), p.up, ToLeft);
      } else if node == node.parent.left && grandpa.right == node.parent {
        node := node.parent;
        RotateRight(node, s, p.up);
        RotatedInorder(ToRight, s);
        v, q := Rotated(ToRight, s).right, Down(Rotated(ToRight, s), p.up, ToRight);
        FocusDown(Heap(), root, Rotated(ToRight, s), p.up, ToRight);
      }
    }

    /** The parent turns black and the grandparent red. */
    method PaintForLift(node: Node, ghost t: Tree, ghost p: Path)
      requires t.Branch? && t.node == node && p.In? && p.up.In? && Sees(t, p)
      modifies repr`color
      ensures Sees(LiftPainted(t, p), p.up.up)
    {
      Hangs(Heap(), root, t, p);
      FocusUp(Heap(), root, t, p);
      ghost var s := Wrap(p, t);
      Hangs(Heap(), root, s, p.up);
      Paint(node.parent, Black, s, p.up);
      ghost var s1 := s.(color := Black);
      FocusUp(Heap(), root, s1, p.up);
      Paint(node.parent.parent, Red, Wrap(p.up, s1), p.up.up);
    }

    /** An outer red grandchild below a red parent with a black uncle: the parent turns black,
        the grandparent red, and the parent is lifted above the grandparent. */
    method Lift(node: Node, ghost t: Tree, ghost p: Path, ghost h: nat) returns (ghost u: Tree)
      requires t.Branch? && t.node == node && IsRed(t) && Balanced(t, h)
      requires p.In? && p.color == Red && Balanced(p.sibling, h) && !IsRed(p.sibling)
      requires p.up.In? && p.side == p.up.side && Balanced(p.up.sibling, h) && !IsRed(p.up.sibling)
      requires Sees(t, p)
      modifies this`root, this`turns, repr
      ensures Sees(u, p.up.up) && Balanced(u, h + 1) && !IsRed(u)
      ensures Inorder(u) == Inorder(Wrap(p.up, Wrap(p, t))) && turns == old(turns) + 1
    {
      PaintForLift(node, t, p);
      ghost var g := LiftPainted(t, p);
      u := Rotated(p.side.Other(), g);
      LiftedBalanced(t, p, h);
      LiftLinks(Heap(), root, t, p);
      if node == node.parent.left && node.parent == node.parent.parent.left {
        RotateRight(node.parent.parent, g, p.up.up);
      } else {
        RotateLeft(node.parent.parent, g, p.up.up);
      }
    }

    /** Red parent, black uncle: the rotations that end an insertion. */
    method InsertTurn(node: Node, ghost t: Tree, ghost p: Path, ghost h: nat) returns (ghost u: Tree)
      requires t.Branch? && t.node == node && IsRed(t) && Balanced(t, h)
      requires p.In? && p.color == Red && PathBalanced(p, h) && !IsRed(p.up.sibling)
      requires Sees(t, p)
      modifies this`root, this`turns, repr
      ensures Sees(u, Top) && RedBlack(u)
      ensures Inorder(u) == Inorder(Plug(p, t))
      ensures turns <= old(turns) + 2
    {
      var n, v, q := Straighten(node, t, p, h);
      var w := Lift(n, v, q, h);
      PlugInorder(q.up.up, w);
      PlugInorder(q.up.up, Wrap(p.up, Wrap(p, t)));
      PlugBalanced(q.up.up, w, h + 1);
      FocusTop(Heap(), root, w, q.up.up);
      u := Plug(q.up.up, w);
    }

    /** One round below a red parent: either the conflict moves up to `next`, or it is settled. */
    method InsertStep(node: Node, ghost t: Tree, ghost p: Path, ghost h: nat)
      returns (next: Node?, ghost u: Tree)
      requires t.Branch? && t.node == node && IsRed(t) && Balanced(t, h)
      requires p.In? && p.color == Red && PathBalanced(p, h) && Sees(t, p)
      modifies this`root, this`turns, repr
      ensures next != null ==>
        && Sees(u, p.up.up) && PathBalanced(p.up.up, h + 1)
        && u.Branch? && u.node == next && IsRed(u) && Balanced(u, h + 1)
        && Inorder(Plug(p.up.up, u)) == Inorder(Plug(p, t))
        && turns == old(turns)
      ensures next == null ==>
        Sees(u, Top) && RedBlack(u) && Inorder(u) == Inorder(Plug(p, t)) && turns <= old(turns) + 2
    {
      HangsTwice(Heap(), root, t, p);
      ghost var g := Wrap(p.up, Wrap(p, t));
      var grandpa := node.parent.parent;
      if grandpa.left != null && grandpa.right != null && grandpa.left.color == Red && grandpa.right.color == Red {
        RecoloredBalanced(p, t, h);
        Recolor(grandpa, g, p.up.up);
        next, u := grandpa, Recolored(g);
      } else {
        next := null;
        u := InsertTurn(node, t, p, h);
      }
    }

    /** Restores the red-black conditions around a red node; at most two rotations. */
    method InsertRebalance(start: Node, ghost t0: Tree, ghost p0: Path, ghost h0: nat)
      returns (ghost u: Tree)
      requires t0.Branch? && t0.node == start && IsRed(t0)
      requires Balanced(t0, h0) && PathBalanced(p0, h0) && Sees(t0, p0)
      modifies this`root, this`turns, repr
      ensures Sees(u, Top) && RedBlack(u)
      ensures Inorder(u) == Inorder(Plug(p0, t0))
      ensures turns <= old(turns) + 2
    {
      hide Shape, PathShape, Separate, SeparatePath;
      var node := start;
      ghost var t, p, h := t0, p0, h0;
      while true
        invariant t.Branch? && t.node == node && IsRed(t) && Balanced(t, h) && PathBalanced(p, h)
        invariant Sees(t, p) && turns == old(turns)
        invariant Inorder(Plug(p, t)) == Inorder(Plug(p0, t0))
        decreases p
      {
        Hangs(Heap(), root, t, p);
        if node.parent != null {
          if node.parent.color == Black {
            PlugBalanced(p, t, h);
            FocusTop(Heap(), root, t, p);
            u := Plug(p, t);
            break;
          }
          var next, v := InsertStep(node, t, p, h);
          if next != null {
            node, t, p, h := next, v, p.up.up, h + 1;
            continue;
          }
          u := v;
        } else {
          Paint(node, Black, t, p);
          u := t.(color := Black);
          PlugBalanced(Top, u, h + 1);
        }
        break;
      }
    }

    /** Stores a fresh node in an empty child link, then links it back to its parent. */
    method Attach(node: Node, parent: Node, side: Side, ghost p: Path)
      requires At(Heap(), root, Leaf, p) && p.In? && p.node == parent && p.side == side && PathNodes(p) == repr
      requires node !in repr && node.color == Red && node.left == node.right == node.parent == null
      modifies this`size, this`repr, repr`left, repr`right, node`parent
      ensures repr == old(repr) + {node} && size == old(size) + 1
      ensures Sees(Bud(node), p)
    {
      ghost var m := Heap();
      assert parent in repr;
      if side.ToLeft? {
        parent.left := node;
      } else {
        parent.right := node;
      }
      size := size + 1;
      node.parent := parent;
      repr := repr + {node};
      ghost var k := Heap();
      assert k[node] == Link(Red, parent, null, null);
      assert k[parent] == m[parent].WithChild(side, node);
      assert forall z :: z in m && z != parent ==> k[z] == m[z];
      Attached(m, k, root, p, node);
    }

    method InsertFirst(node: Node)
      requires Valid() && root == null
      requires node.color == Red && node.left == node.right == node.parent == null
      modifies this, node`color
      ensures Valid() && tree == Branch(Leaf, node, Black, Leaf) && repr == {node}
      ensures turns == old(turns) && old(Inorder(tree)) == [] && old(repr) == {}
    {
      root, size, repr := node, size + 1, {node};
      root.color := Black;
      tree := Branch(Leaf, node, Black, Leaf);
      assert Balanced(tree, 1);
      assert Shape(Heap(), tree, root, null);
    }

    method InsertBelow(node: Node, parent: Node, side: Side) returns (ghost u: Tree)
      requires Valid() && node !in repr && parent in repr
      requires node.color == Red && node.left == node.right == node.parent == null
      requires (if side.ToLeft? then parent.left else parent.right) == null
      modifies this`root, this`turns, this`size, this`repr, repr, node
      ensures Sees(u, Top) && RedBlack(u)
      ensures repr == old(repr) + {node} == Nodes(u) && size == old(size) + 1 == |Inorder(u)|
      ensures InsertedBeside(Inorder(tree), Inorder(u), parent, side, node)
      ensures turns <= old(turns) + 2
    {
      hide Shape, PathShape, Separate, SeparatePath, Plug;
      ghost var p := EmptyPlace(Heap(), root, tree, parent, side, node);
      Attach(node, parent, side, p);
      u := InsertRebalance(node, Bud(node), p, 0);
      BudGrown(tree, p, node, u);
    }

    /** Hangs a fresh node below `parent` (or makes it the root of an empty tree) and rebalances. */
    method Insert(node: Node, parent: Node?, side: Side)
      requires Valid() && node !in repr
      requires node.color == Red && node.left == node.right == node.parent == null
      requires parent == null ==> root == null
      requires parent != null ==> parent in repr && (if side.ToLeft? then parent.left else parent.right) == null
      modifies this, repr, node
      ensures Valid() && repr == old(repr) + {node} && size == old(size) + 1
      ensures InsertedBeside(old(Inorder(tree)), Inorder(tree), parent, side, node)
      ensures turns <= old(turns) + 2
    {
      if parent != null {
        ghost var u;
        u := InsertBelow(node, parent, side);
        tree := u;
      } else {
        InsertFirst(node);
      }
    }

    /** First part of an exchange: the child links above the two nodes. */
    method SwapBelowParents(first: Node, second: Node, ghost m: Links)
      requires first in repr && second in repr && first != second
      requires m == Heap() && Consistent(m, root)
      modifies this`root, repr`left, repr`right
      ensures forall x :: x in repr ==>
        x.left == Swapped(first, second, m[x].left) && x.right == Swapped(first, second, m[x].right)
      ensures root == Swapped(first, second, old(root))
    {
      assert Mutual(m, root, first) && Mutual(m, root, second);
      if first == root {
        root := second;
      } else if second == root {
        root := first;
      }
      var firstParent, secondParent := first.parent, second.parent;
      if firstParent == secondParent {
        if first == firstParent.left {
          firstParent.left := second;
          firstParent.right := first;
        } else {
          firstParent.left := first;
          firstParent.right := second;
        }
      } else {
        if firstParent != null {
          if first == firstParent.left {
            firstParent.left := second;
          } else {
            firstParent.right := second;
          }
        }
        if secondParent != null {
          if second == secondParent.left {
            secondParent.left := first;
          } else {
            secondParent.right := first;
          }
        }
      }
      forall x | x in repr
        ensures x.left == Swapped(first, second, m[x].left) && x.right == Swapped(first, second, m[x].right)
      {
        assert Mutual(m, old(root), x);
      }
    }

    /** Second part: the parent links below the two nodes, `m` being the links before the exchange. */
    method SwapAboveChildren(first: Node, second: Node, firstLeft: Node?, firstRight: Node?, secondLeft: Node?,
                             secondRight: Node?, ghost m: Links, ghost r: Node?)
      requires first in m && second in m && first != second && m.Keys == repr && Consistent(m, r)
      requires forall x :: x in repr ==> x.parent == m[x].parent
      requires firstLeft == m[first].left && firstRight == m[first].right
      requires secondLeft == m[second].left && secondRight == m[second].right
      modifies repr`parent
      ensures forall x :: x in repr && x != first && x != second ==> x.parent == Swapped(first, second, m[x].parent)
    {
      assert Mutual(m, r, first) && Mutual(m, r, second);
      if firstLeft != null { firstLeft.parent := second; }
      if firstRight != null { firstRight.parent := second; }
      if secondLeft != null { secondLeft.parent := first; }
      if secondRight != null { secondRight.parent := first; }
      forall x | x in repr && x != first && x != second
        ensures x.parent == Swapped(first, second, m[x].parent)
      {
        assert Mutual(m, r, x);
      }
    }

    /** `x` takes over the links that `y` had, where a link of `y` to `x` becomes one to `y`. */
    method TakePlace(x: Node, y: Node, parent: Node?, left: Node?, right: Node?)
      requires parent != y && left != y && right != y
      modifies x`parent, x`left, x`right
      ensures x.parent == Swapped(x, y, parent)
      ensures x.left == Swapped(x, y, left)
      ensures x.right == Swapped(x, y, right)
    {
      x.parent := if parent != x then parent else y;
      x.left := if left != x then left else y;
      x.right := if right != x then right else y;
    }

    method SwapColors(first: Node, second: Node)
      modifies first`color, second`color
      ensures first.color == old(second.color) && second.color == old(first.color)
    {
      var color := first.color;
      first.color := second.color;
      second.color := color;
    }

    /** Exchanges the places of two nodes of the tree, whatever their relation. */
    method Swap(first: Node, second: Node)
      requires first in repr && second in repr && first != second
      requires Consistent(Heap(), root)
      modifies this`root, repr
      ensures Exchanged(old(Heap()), Heap(), first, second)
      ensures root == Swapped(first, second, old(root))
    {
      ghost var m := Heap();
      assert Mutual(m, root, first) && Mutual(m, root, second);
      var firstParent, firstLeft, firstRight := first.parent, first.left, first.right;
      var secondParent, secondLeft, secondRight := second.parent, second.left, second.right;
      SwapBelowParents(first, second, m);
      SwapAboveChildren(first, second, firstLeft, firstRight, secondLeft, secondRight, m, old(root));
      TakePlace(first, second, secondParent, secondLeft, secondRight);
      TakePlace(second, first, firstParent, firstLeft, firstRight);
      SwapColors(first, second);
      ghost var k := Heap();
      assert k[second] == SwappedLink(first, second, m[first]);
      assert k[first] == SwappedLink(first, second, m[second]);
      assert forall x :: x in m && x != first && x != second ==> k[x] == SwappedLink(first, second, m[x]);
      ExchangedFrom(m, k, first, second);
    }

    method GetSibling(node: Node, ghost t: Tree, ghost p: Path) returns (sibling: Node?)
      requires t.Branch? && t.node == node && p.In? && Sees(t, p)
      ensures sibling == Root(p.sibling)
    {
      Hangs(Heap(), root, t, p);
      if node.parent.left == node {
        return node.parent.right;
      }
      return node.parent.left;
    }

    method PaintParent(parent: Node, c: Color, ghost t: Tree, ghost p: Path)
      requires p.In? && p.node == parent && Sees(t, p)
      modifies repr`color
      ensures Sees(t, p.(color := c))
    {
      FocusUp(Heap(), root, t, p);
      Paint(parent, c, Wrap(p, t), p.up);
      FocusDown(Heap(), root, Wrap(p, t).(color := c), p.up, p.side);
    }

    method PaintSibling(sibling: Node, c: Color, ghost t: Tree, ghost p: Path)
      requires p.In? && p.sibling.Branch? && p.sibling.node == sibling && Sees(t, p)
      modifies repr`color
      ensures Sees(t, p.(sibling := p.sibling.(color := c)))
    {
      FocusAcross(Heap(), root, t, p);
      Paint(sibling, c, p.sibling, Across(t, p));
      FocusAcross(Heap(), root, p.sibling.(color := c), Across(t, p));
    }

    /** Paints the child of the sibling on side `d`. */
    method PaintNephew(nephew: Node, d: Side, c: Color, ghost t: Tree, ghost p: Path)
      requires p.In? && p.sibling.Branch? && Sub(p.sibling, d).Branch? && Sub(p.sibling, d).node == nephew && Sees(t, p)
      modifies repr`color
      ensures Sees(t, p.(sibling := WithSub(p.sibling, d, Sub(p.sibling, d).(color := c))))
    {
      ghost var q, n := Across(t, p), Sub(p.sibling, d);
      FocusAcross(Heap(), root, t, p);
      FocusDown(Heap(), root, p.sibling, q, d);
      Paint(nephew, c, n, Down(p.sibling, q, d));
      FocusUp(Heap(), root, n.(color := c), Down(p.sibling, q, d));
      FocusAcross(Heap(), root, WithSub(p.sibling, d, n.(color := c)), q);
    }

    /** Rotates the parent of the focus towards the focus; the sibling comes up. */
    method RotateParent(node: Node, ghost t: Tree, ghost p: Path)
      requires t.Branch? && t.node == node && p.In? && p.sibling.Branch? && Sees(t, p)
      modifies this`root, this`turns, repr`parent, repr`left, repr`right
      ensures Sees(Rotated(p.side, Wrap(p, t)), p.up) && turns == old(turns) + 1
    {
      Hangs(Heap(), root, t, p);
      FocusUp(Heap(), root, t, p);
      if node == node.parent.left {
        RotateLeft(node.parent, Wrap(p, t), p.up);
      } else {
        RotateRight(node.parent, Wrap(p, t), p.up);
      }
    }

    method RotateSibling(sibling: Node, d: Side, ghost t: Tree, ghost p: Path)
      requires p.In? && p.sibling.Branch? && p.sibling.node == sibling && Sub(p.sibling, d.Other()).Branch?
        && Sees(t, p)
      modifies this`root, this`turns, repr`parent, repr`left, repr`right
      ensures Sees(t, p.(sibling := Rotated(d, p.sibling))) && turns == old(turns) + 1
    {
      FocusAcross(Heap(), root, t, p);
      if d.ToLeft? {
        RotateLeft(sibling, p.sibling, Across(t, p));
      } else {
        RotateRight(sibling, p.sibling, Across(t, p));
      }
      FocusAcross(Heap(), root, Rotated(d, p.sibling), Across(t, p));
    }

    /** A red sibling turns black, the parent red, and the parent goes down towards the focus. */
    method LowerFocus(node: Node, sibling: Node, ghost t: Tree, ghost p: Path) returns (newSibling: Node?)
      requires t.Branch? && t.node == node && p.In? && p.sibling.Branch? && p.sibling.node == sibling && Sees(t, p)
      modifies this`root, this`turns, repr
      ensures Sees(t, Lowered(p)) && newSibling == Root(Near(p))
      ensures turns == old(turns) + 1
    {
      Hangs(Heap(), root, t, p);
      PaintSibling(sibling, Black, t, p);
      ghost var p1 := p.(sibling := p.sibling.(color := Black));
      PaintParent(node.parent, Red, t, p1);
      ghost var p2 := p1.(color := Red);
      RotateParent(node, t, p2);
      LoweredFocus(Heap(), root, t, p);
      newSibling := GetSibling(node, t, Lowered(p));
    }

    /** The child of the sibling on side `d` turns black and comes up above the sibling. */
    method TurnNephew(sibling: Node, nephew: Node, d: Side, ghost t: Tree, ghost p: Path)
      requires p.In? && p.sibling.Branch? && p.sibling.node == sibling && Sees(t, p)
      requires Sub(p.sibling, d).Branch? && Sub(p.sibling, d).node == nephew
      modifies this`root, this`turns, repr
      ensures Sees(t, p.(sibling := Rotated(d.Other(), WithSub(p.sibling, d, Sub(p.sibling, d).(color := Black)))))
      ensures turns == old(turns) + 1
    {
      PaintNephew(nephew, d, Black, t, p);
      RotateSibling(sibling, d.Other(), t, p.(sibling := WithSub(p.sibling, d, Sub(p.sibling, d).(color := Black))));
    }

    /** A red near nephew turns black and comes up above the sibling, which turns red. */
    method LiftNephew(node: Node, sibling: Node, ghost t: Tree, ghost p: Path) returns (newSibling: Node?)
      requires t.Branch? && t.node == node && p.In? && p.sibling.Branch? && p.sibling.node == sibling && Near(p).Branch?
      requires Sees(t, p)
      modifies this`root, this`turns, repr
      ensures Sees(t, NephewLifted(p)) && newSibling == Near(p).node
      ensures turns == old(turns) + 1
    {
      SiblingLinks(Heap(), root, t, p);
      PaintSibling(sibling, Red, t, p);
      ghost var p1 := p.(sibling := p.sibling.(color := Red));
      if node == node.parent.left {
        TurnNephew(sibling, sibling.left, ToLeft, t, p1);
      } else {
        TurnNephew(sibling, sibling.right, ToRight, t, p1);
      }
      newSibling := GetSibling(node, t, NephewLifted(p));
    }

    /** The sibling takes over the colour of the parent and comes up; parent and far nephew turn black. */
    method LiftSibling(node: Node, sibling: Node, ghost t: Tree, ghost p: Path)
      requires t.Branch? && t.node == node && p.In? && p.sibling.Branch? && p.sibling.node == sibling && Far(p).Branch?
      requires Sees(t, p)
      modifies this`root, this`turns, repr
      ensures Sees(SiblingLifted(t, p), p.up)
      ensures turns == old(turns) + 1
    {
      Hangs(Heap(), root, t, p);
      FocusAcross(Heap(), root, t, p);
      FocusDown(Heap(), root, p.sibling, Across(t, p), p.side.Other());
      PaintSibling(sibling, node.parent.color, t, p);
      ghost var p1 := p.(sibling := p.sibling.(color := p.color));
      PaintParent(node.parent, Black, t, p1);
      ghost var p2 := p1.(color := Black);
      if node == node.parent.left {
        PaintNephew(sibling.right, ToRight, Black, t, p2);
      } else {
        PaintNephew(sibling.left, ToLeft, Black, t, p2);
      }
      RotateParent(node, t, p2.(sibling := WithSub(p2.sibling, p.side.Other(), Far(p).(color := Black))));
    }

    /** A black sibling with a red child: one or two rotations settle the tree. */
    method RemoveTurn(node: Node, blackSibling: Node, ghost t: Tree, ghost p: Path, ghost n: Node, ghost h: nat)
      returns (ghost u: Tree)
      requires t.Branch? && t.node == node && p.In? && p.sibling.Branch?
      requires p.sibling.node == blackSibling && p.sibling.color == Black && (IsRed(Near(p)) || IsRed(Far(p)))
      requires Short(t, p, n, h) && Sees(t, p)
      modifies this`root, this`turns, repr
      ensures Sees(u, Top) && Settled(u, p, t, n) && turns <= old(turns) + 2
    {
      var sibling: Node? := blackSibling;
      ghost var q := p;
      SiblingLinks(Heap(), root, t, p);
      if (node == node.parent.left && sibling.color == Black && sibling.left != null && sibling.left.color == Red
          && (sibling.right == null || sibling.right.color == Black))
        || (node == node.parent.right && sibling.color == Black && sibling.right != null && sibling.right.color == Red
            && (sibling.left == null || sibling.left.color == Black))
      {
        NephewLiftedShort(t, p, n, h);
        sibling := LiftNephew(node, sibling, t, p);
        q := NephewLifted(p);
      }
      LiftSibling(node, sibling, t, q);
      SiblingLiftedSettles(t, q, n, h);
      u := Plug(p.up, SiblingLifted(t, q));
      FocusTop(Heap(), root, SiblingLifted(t, q), p.up);
    }

    /** One round for a sibling that is black: either the parent inherits the deficit (`moved`),
        or the tree is settled. */
    method RemoveStep(node: Node, sibling: Node, ghost t: Tree, ghost p: Path, ghost n: Node, ghost h: nat)
      returns (moved: bool, ghost u: Tree)
      requires t.Branch? && t.node == node && p.In? && !IsRed(p.sibling) && Root(p.sibling) == sibling
      requires Short(t, p, n, h) && Sees(t, p)
      modifies this`root, this`turns, repr
      ensures turns <= old(turns) + 2 && (moved ==> p.color == Black && turns == old(turns))
      ensures moved ==> u.Branch? && u.node == p.node && Sees(u, p.up) && Short(u, p.up, n, h + 1)
      ensures moved ==> Inorder(Plug(p.up, u)) == Inorder(Plug(p, t))
      ensures !moved ==> Sees(u, Top) && Settled(u, p, t, n)
    {
      SiblingExists(t, p, n, h);
      SiblingLinks(Heap(), root, t, p);
      assert n !in PathNodes(p);
      moved := false;
      var blackNephews := (sibling.left == null || sibling.left.color == Black)
                          && (sibling.right == null || sibling.right.color == Black);
      if node.parent.color == Black && sibling.color == Black && blackNephews {
        ReddenedShort(t, p, n, h);
        PaintSibling(sibling, Red, t, p);
        u, moved := SiblingReddened(t, p, Black), true;
        FocusUp(Heap(), root, t, p.(sibling := p.sibling.(color := Red)));
      } else if node.parent.color == Red && sibling.color == Black && blackNephews {
        ReddenedShort(t, p, n, h);
        PaintParent(node.parent, Black, t, p);
        ghost var p1 := p.(color := Black);
        PaintSibling(sibling, Red, t, p1);
        FocusUp(Heap(), root, t, p1.(sibling := p.sibling.(color := Red)));
        ghost var v := SiblingReddened(t, p, Black);
        Settles(p.up, v, n, h + 1);
        FocusTop(Heap(), root, v, p.up);
        u := Plug(p.up, v);
      } else {
        u := RemoveTurn(node, sibling, t, p, n, h);
      }
    }

    /** Makes up for the black that will be missing once the childless black node `start` is cut off. */
    method RebalanceShort(start: Node, ghost p0: Path) returns (ghost u: Tree)
      requires Sees(Branch(Leaf, start, Black, Leaf), p0) && PathBalanced(p0, 1)
      modifies this`root, this`turns, repr
      ensures Sees(u, Top) && Settled(u, p0, Branch(Leaf, start, Black, Leaf), start)
      ensures turns <= old(turns) + 3
    {
      var node := start;
      ghost var t, p, h := Branch(Leaf, start, Black, Leaf), p0, 0;
      while true
        invariant t.Branch? && t.node == node && Sees(t, p) && Short(t, p, start, h)
        invariant Inorder(Plug(p, t)) == Inorder(Plug(p0, Branch(Leaf, start, Black, Leaf)))
        invariant turns == old(turns)
        decreases p
      {
        Hangs(Heap(), root, t, p);
        if node.parent == null {
          Paint(root, Black, t, p);
          u := t;
        } else {
          SiblingExists(t, p, start, h);
          var sibling := GetSibling(node, t, p);
          ghost var q := p;
          SiblingLinks(Heap(), root, t, p);
          if sibling.color == Red {
            LoweredShort(t, p, start, h);
            sibling := LowerFocus(node, sibling, t, p);
            q := Lowered(p);
            SiblingExists(t, q, start, h);
          }
          SiblingLinks(Heap(), root, t, q);
          var parent := node.parent;
          var moved, v := RemoveStep(node, sibling, t, q, start, h);
          if moved {
            node, t, p, h := parent, v, q.up, h + 1;
            continue;
          }
          u := v;
        }
        break;
      }
    }

    /** The rightmost node left of `node`, which directly precedes it. */
    method FindPredecessor(node: Node) returns (pred: Node, ghost w: Tree, ghost r: Path, ghost rest: seq<Node>)
      requires Valid() && node in repr && node.left != null
      ensures pred in repr && pred.right == null
      ensures w.Branch? && w.node == pred && w.right == Leaf && Plug(r, w) == tree && After(r) == [node] + rest
    {
      ghost var s, q := FocusOn(Heap(), root, tree, Top, node);
      FocusDown(Heap(), root, s, q, ToLeft);
      w, r := s.left, Down(s, q, ToLeft);
      rest := Inorder(s.right) + After(q);
      assert After(r) == [node] + rest;
      pred := node.left;
      FocusDown(Heap(), root, w, r, ToRight);
      while pred.right != null
        invariant w.Branch? && w.node == pred && Sees(w, r) && After(r) == [node] + rest
        invariant Plug(r, w) == tree
        invariant pred in repr && pred.right == Root(w.right)
        decreases w
      {
        w, r := w.right, Down(w, r, ToRight);
        pred := pred.right;
        FocusDown(Heap(), root, w, r, ToRight);
      }
    }

    method ExchangeWithPredecessor(node: Node, pred: Node, ghost w: Tree, ghost r: Path, ghost rest: seq<Node>)
      returns (ghost u: Tree)
      requires Valid() && node in repr && pred in repr && pred.right == null
      requires w.Branch? && w.node == pred && w.right == Leaf && Plug(r, w) == tree && After(r) == [node] + rest
      modifies this`root, repr
      ensures Sees(u, Top) && RedBlack(u) && Nodes(u) == repr && node.right == null
      ensures |Inorder(u)| == |Inorder(tree)|
      ensures Without(Inorder(u), node) == Without(Inorder(tree), node)
    {
      hide Exchange, Exchanged, Consistent, Without, Inorder, Plug, After, Nodes, Shape, PathShape, Balanced;
      ghost var m := Heap();
      WithoutExchanged(tree, node, pred, w, r, rest);
      TreeIsConsistent(m, root, tree);
      assert m[pred].right == null;
      Swap(node, pred);
      SwappedRight(m, Heap(), node, pred);
      assert Heap()[node].right == null;
      u := Exchange(tree, node, pred);
      ExchangedTree(m, Heap(), old(root), tree, node, pred);
    }

    /** Puts `child` in the place of `node`, as seen from above. */
    method HangInstead(node: Node, child: Node)
      requires node.parent != null ==> node.parent in repr && (node == node.parent.left || node == node.parent.right)
      requires node.parent != node
      modifies this`root, repr`left, repr`right
      ensures root == if node.parent == null then child else old(root)
      ensures forall x :: x in repr && x != node.parent ==> x.left == old(x.left) && x.right == old(x.right)
      ensures node.parent != null ==>
        if old(node.parent.left) == node then node.parent.left == child && node.parent.right == old(node.parent.right)
        else node.parent.right == child && node.parent.left == old(node.parent.left)
      ensures node.left == old(node.left) && node.right == old(node.right)
    {
      if node.parent != null {
        node.parent.SetChild(node, child);
      } else {
        root := child;
      }
    }

    /** Unhooks a node that has exactly one child, on side `d`: the child takes its place. */
    method Splice(node: Node, d: Side, ghost s: Tree, ghost q: Path)
      requires s.Branch? && s.node == node && Sub(s, d).Branch? && Sees(s, q)
      modifies this`root, repr`parent, repr`left, repr`right
      ensures Sees(Sub(s, d), q)
      ensures node.left == old(node.left) && node.right == old(node.right)
      ensures root == RehungRoot(old(root), q, Sub(s, d).node)
    {
      ghost var m := Heap();
      FocusDown(m, root, s, q, d);
      Hangs(m, root, s, q);
      Hangs(m, root, Sub(s, d), Down(s, q, d));
      var child := if d.ToLeft? then node.left else node.right;
      assert child in repr && child != node && child != node.parent;
      child.parent := node.parent;
      HangInstead(node, child);
      ghost var k := Heap();
      assert Risen(m, k, q, child);
      Spliced(m, k, old(root), s, q, d);
    }

    /** Cuts off a childless node. */
    method CutOff(node: Node, ghost s: Tree, ghost q: Path)
      requires s.Branch? && s.node == node && q.In? && Sees(s, q)
      modifies this`root, repr`left, repr`right
      ensures Sees(Leaf, q)
      ensures node.left == old(node.left) && node.right == old(node.right)
    {
      ghost var m := Heap();
      Hangs(m, root, s, q);
      node.parent.SetChild(node, null);
      CutOffShape(m, Heap(), root, s, q);
    }

    /** Makes up for the loss of `node`, which has been unhooked already if it has a child,
        and is cut off afterwards if it has none. */
    method RemoveRebalance(node: Node, ghost s: Tree, ghost q: Path, ghost h: nat)
      returns (ghost u: Tree)
      requires s.Branch? && s.node == node && (s.left == Leaf || s.right == Leaf)
      requires node.color == s.color && node.left == Root(s.left) && node.right == Root(s.right)
      requires Balanced(s, h) && PathBalanced(q, h) && (NeedsBlack(q) ==> !IsRed(s)) && node !in PathNodes(q)
      requires Sees(if Rest(s).Branch? then Rest(s) else s, q)
      modifies this`root, this`turns, repr
      ensures Rest(s).Branch? ==> u == Plug(q, Rest(s).(color := Black)) && Sees(u, Top)
      ensures Rest(s).Leaf? ==> Settled(u, q, s, node) && Sees(u, Top)
      ensures turns <= old(turns) + 3
    {
      var child := if node.left != null then node.left else node.right;
      if child != null {
        OnlyChild(s, q, h);
        Hangs(Heap(), root, Rest(s), q);
      }
      if node.color == Black {
        if child != null && child.color == Red {
          Paint(child, Black, Rest(s), q);
          ghost var c := Rest(s).(color := Black);
          FocusTop(Heap(), root, c, q);
          u := Plug(q, c);
        } else {
          var pivot := if child != null then child else node;
          u := RebalanceShort(pivot, q);
        }
      } else {
        FocusTop(Heap(), root, s, q);
        u := Plug(q, s);
        Settles(q, s, node, h);
      }
    }

    method RemoveWithChild(node: Node, ghost s: Tree, ghost q: Path) returns (ghost u: Tree)
      requires s.Branch? && s.node == node && (s.left == Leaf || s.right == Leaf) && Rest(s).Branch?
      requires Sees(s, q) && RedBlack(Plug(q, s))
      modifies this`root, this`turns, repr
      ensures Sees(u, Top) && RedBlack(u) && turns <= old(turns) + 3
      ensures Inorder(u) == Without(Inorder(Plug(q, s)), node) && |Inorder(u)| + 1 == |Inorder(Plug(q, s))|
      ensures Nodes(u) == Nodes(Plug(q, s)) - {node}
    {
      ghost var h := UnplugBalanced(q, s);
      FocusDown(Heap(), root, s, q, ToLeft);
      FocusDown(Heap(), root, s, q, ToRight);
      Hangs(Heap(), root, s, q);
      OnlyChild(s, q, h);
      if node.left != null {
        Splice(node, ToLeft, s, q);
      } else {
        Splice(node, ToRight, s, q);
      }
      u := RemoveRebalance(node, s, q, h);
      PlugSeparate(q, s);
      RestLeft(q, s, node, Black);
    }

    method RemoveChildless(node: Node, ghost s: Tree, ghost q: Path) returns (ghost u: Tree)
      requires s.Branch? && s.node == node && s.left == Leaf && s.right == Leaf
      requires Sees(s, q) && RedBlack(Plug(q, s)) && node in repr
      modifies this`root, this`turns, repr
      ensures RedBlack(u) && turns <= old(turns) + 3 && (u == Leaf || Sees(u, Top))
      ensures Inorder(u) == Without(Inorder(Plug(q, s)), node) && |Inorder(u)| + 1 == |Inorder(Plug(q, s))|
      ensures Nodes(u) == Nodes(Plug(q, s)) - {node}
    {
      hide Balanced, Shape, PathShape, Separate, SeparatePath;
      ghost var h := UnplugBalanced(q, s);
      FocusDown(Heap(), root, s, q, ToLeft);
      FocusDown(Heap(), root, s, q, ToRight);
      Hangs(Heap(), root, s, q);
      ghost var v;
      v := RemoveRebalance(node, s, q, h);
      ghost var w, r := FocusOn(Heap(), root, v, Top, node);
      SoloFocus(v, r, w);
      Hangs(Heap(), root, w, r);
      u := Cut(v, node);
      RestLeft(r, w, node, Black);
      SameInorder(v, Plug(q, s));
      if node.parent != null {
        CutOff(node, w, r);
        FocusTop(Heap(), root, Leaf, r);
      }
    }

    /** Unhooks a node with at most one child and rebalances. */
    method Unhook(node: Node, ghost t: Tree) returns (ghost u: Tree)
      requires Sees(t, Top) && RedBlack(t) && Nodes(t) == repr && node in repr
        && (node.left == null || node.right == null)
      modifies this`root, this`turns, repr
      ensures RedBlack(u) && turns <= old(turns) + 3 && (u == Leaf || Sees(u, Top))
      ensures Inorder(u) == Without(Inorder(t), node) && |Inorder(u)| + 1 == |Inorder(t)|
      ensures Nodes(u) == repr - {node}
    {
      ghost var s, q := FocusOn(Heap(), root, t, Top, node);
      FocusDown(Heap(), root, s, q, ToLeft);
      FocusDown(Heap(), root, s, q, ToRight);
      if node.left != null || node.right != null {
        u := RemoveWithChild(node, s, q);
      } else {
        u := RemoveChildless(node, s, q);
      }
    }

    method FinishRemoval(node: Node, ghost u: Tree)
      requires node in repr && Nodes(u) == repr - {node} && |Inorder(u)| == size - 1 && RedBlack(u)
      requires u == Leaf || Sees(u, Top)
      modifies this, node`left, node`right
      ensures Valid() && tree == u && repr == old(repr) - {node} && size == old(size) - 1
      ensures node.left == null && node.right == null && turns == old(turns)
    {
      ghost var m := Heap();
      node.left, node.right := null, null;
      size := size - 1;
      if size == 0 {
        root := null;
      }
      tree, repr := u, repr - {node};
      if u.Branch? {
        ShapeFrame(m, Heap(), u, root, null);
      }
    }

    /** Takes a node out of the tree. */
    method RemoveNode(node: Node)
      requires Valid() && node in repr
      modifies this, repr
      ensures Valid() && repr == old(repr) - {node} && size == old(size) - 1
      ensures Inorder(tree) == Without(old(Inorder(tree)), node)
      ensures node.left == null && node.right == null
      ensures turns <= old(turns) + 3
    {
      ghost var t, u := tree, tree;
      if node.left != null && node.right != null {
        var pred, w, r, rest := FindPredecessor(node);
        t := ExchangeWithPredecessor(node, pred, w, r, rest);
      }
      u := Unhook(node, t);
      FinishRemoval(node, u);
    }

    /** The node after `start` in order; the first node when `start` is null. */
    method Next(start: Node?) returns (node: Node?)
      requires Valid() && (start == null || start in repr)
      ensures node == NextOf(Inorder(tree), start)
    {
      node := start;
      if node != null {
        ghost var t, p := FocusOn(Heap(), root, tree, Top, start);
        var last: Node? := node;
        ghost var goal := NextOf(Inorder(tree), start);
        NeighboursInTree(tree, t, p);
        while node != null
          invariant node == null ==> goal == null
          invariant node != null ==> t.Branch? && t.node == node && Sees(t, p) && Plug(p, t) == tree
          invariant node != null ==>
            || (last == node && goal == First(Inorder(t.right) + After(p)))
            || (last == Root(t.right) && last != null && goal == First(After(p)))
          decreases if node == null then 0 else 1 + Depth(p)
        {
          FocusDown(Heap(), root, t, p, ToRight);
          Hangs(Heap(), root, t, p);
          if node.right != null && node.right != last {
            node := node.right;
            node := Leftmost(node, t.right, Down(t, p, ToRight));
            break;
          } else {
            last := node;
            node := node.parent;
            if node != null && last == node.left {
              break;
            }
            if node != null {
              FocusUp(Heap(), root, t, p);
              t, p := Wrap(p, t), p.up;
            }
          }
        }
      } else {
        node := root;
        if node != null {
          node := Leftmost(node, tree, Top);
        }
      }
    }

    method Leftmost(start: Node, ghost t0: Tree, ghost p0: Path) returns (node: Node)
      requires t0.Branch? && t0.node == start && Sees(t0, p0)
      ensures node == First(Inorder(t0))
    {
      node := start;
      ghost var t, p := t0, p0;
      FocusDown(Heap(), root, t, p, ToLeft);
      while node.left != null
        invariant t.Branch? && t.node == node && Sees(t, p) && First(Inorder(t)) == First(Inorder(t0))
        invariant node in repr && node.left == Root(t.left)
        decreases t
      {
        node := node.left;
        t, p := t.left, Down(t, p, ToLeft);
        FocusDown(Heap(), root, t, p, ToLeft);
      }
    }

    /** The node before `start` in order; the last node when `start` is null. */
    method Previous(start: Node?) returns (node: Node?)
      requires Valid() && (start == null || start in repr)
      ensures node == PreviousOf(Inorder(tree), start)
    {
      node := start;
      if node != null {
        ghost var t, p := FocusOn(Heap(), root, tree, Top, start);
        var last: Node? := node;
        ghost var goal := PreviousOf(Inorder(tree), start);
        NeighboursInTree(tree, t, p);
        while node != null
          invariant node == null ==> goal == null
          invariant node != null ==> t.Branch? && t.node == node && Sees(t, p) && Plug(p, t) == tree
          invariant node != null ==>
            || (last == node && goal == Last(Before(p) + Inorder(t.left)))
            || (last == Root(t.left) && last != null && goal == Last(Before(p)))
          decreases if node == null then 0 else 1 + Depth(p)
        {
          FocusDown(Heap(), root, t, p, ToLeft);
          Hangs(Heap(), root, t, p);
          if node.left != null && node.left != last {
            node := node.left;
            node := Rightmost(node, t.left, Down(t, p, ToLeft));
            break;
          } else {
            last := node;
            node := node.parent;
            if node != null && last == node.right {
              break;
            }
            if node != null {
              FocusUp(Heap(), root, t, p);
              t, p := Wrap(p, t), p.up;
            }
          }
        }
      } else {
        node := root;
        if node != null {
          node := Rightmost(node, tree, Top);
        }
      }
    }

    method Rightmost(start: Node, ghost t0: Tree, ghost p0: Path) returns (node: Node)
      requires t0.Branch? && t0.node == start && Sees(t0, p0)
      ensures node == Last(Inorder(t0))
    {
      node := start;
      ghost var t, p := t0, p0;
      FocusDown(Heap(), root, t, p, ToRight);
      while node.right != null
        invariant t.Branch? && t.node == node && Sees(t, p) && Last(Inorder(t)) == Last(Inorder(t0))
        invariant node in repr && node.right == Root(t.right)
        decreases t
      {
        node := node.right;
        t, p := t.right, Down(t, p, ToRight);
        FocusDown(Heap(), root, t, p, ToRight);
      }
    }

    /** Visits all nodes with steps from null back to null. */
    method Traverse() returns (visited: seq<Node>)
      requires Valid()
      ensures visited == Inorder(tree)
    {
      hide Shape, PathShape, Separate, SeparatePath, Balanced, Inorder;
      visited := [];
      ghost var s := Inorder(tree);
      InorderDistinct(tree);
      NodesAreInorder(tree);
      ghost var k: nat := 1;
      var node := Next(null);
      WalkVisitsAll(s, 1);
      while node != null
        invariant k == |visited| + 1 <= |s| + 1 && visited == s[..k - 1] && node == Walk(s, k)
        invariant node == if k <= |s| then s[k - 1] else null
        decreases |s| + 1 - k
      {
        assert node in s;
        visited := visited + [node];
        node := Next(node);
        k := k + 1;
        WalkVisitsAll(s, k);
      }
    }
  }

  /** The height of a valid tree of n nodes is at most 2 * log2(n + 1). */
  lemma HeightOfValid(t: SelfBalancingTree)
    requires t.Valid()
    ensures t.size >= 0 && Pow2(Height(t.tree)) <= (t.size + 1) * (t.size + 1)
  {
    HeightBound(t.tree);
  }
}
