/** The shape of a tree told by the ways down from its root. */
module TreeWays {
  import opened TreeShape

  /** What is reached from the root by going down to the sides of `w`. */
  ghost function Down(t: Tree, w: seq<Side>): Tree {
    if w == [] then t
    else if t.Leaf? then Leaf
    else Down(if w[0].ToLeft? then t.left else t.right, w[1..])
  }

  /** Whether `w` is a whole way down: past its nodes there is none. */
  ghost predicate WholeWay(t: Tree, w: seq<Side>) {
    if w == [] then t.Leaf? else t.Branch? && WholeWay(if w[0].ToLeft? then t.left else t.right, w[1..])
  }

  /** The number of black nodes on a way. */
  ghost function BlackNodes(t: Tree, w: seq<Side>): nat {
    if w == [] || t.Leaf? then 0
    else (if t.color == Black then 1 else 0) + BlackNodes(if w[0].ToLeft? then t.left else t.right, w[1..])
  }

  ghost predicate RedNode(t: Tree) {
    t.Branch? && t.color == Red
  }

  ghost predicate RedAt(t: Tree, w: seq<Side>) {
    RedNode(Down(t, w))
  }

  /** No red node is right below a red one. */
  ghost predicate NoRedBelowRed(t: Tree) {
    forall w, s: Side :: RedAt(t, w) ==> !RedAt(t, w + [s])
  }

  /** All whole ways pass the same number of black nodes. */
  ghost predicate SameBlacks(t: Tree, h: nat) {
    forall w :: WholeWay(t, w) ==> BlackNodes(t, w) == h
  }

  lemma {:induction false} SomeWay(t: Tree) returns (w: seq<Side>)
    ensures WholeWay(t, w)
  {
    if t.Leaf? {
      w := [];
    } else {
      w := SomeWay(t.left);
      assert ([ToLeft] + w)[1..] == w;
      w := [ToLeft] + w;
    }
  }

  lemma {:induction false} BelowChild(t: Tree, s: Side, w: seq<Side>)
    requires t.Branch?
    ensures var u := if s.ToLeft? then t.left else t.right;
      && Down(t, [s] + w) == Down(u, w) && (WholeWay(t, [s] + w) <==> WholeWay(u, w))
      && BlackNodes(t, [s] + w) == BlackNodes(u, w) + (if t.color == Black then 1 else 0)
  {
    assert ([s] + w)[1..] == w;
  }

  lemma {:induction false} ChildrenOfRed(t: Tree)
    requires t.Branch? && NoRedBelowRed(t)
    ensures NoRedBelowRed(t.left) && NoRedBelowRed(t.right)
    ensures t.color == Red ==> !RedNode(t.left) && !RedNode(t.right)
  {
    forall w, s: Side | RedAt(t.left, w) ensures !RedAt(t.left, w + [s]) {
      BelowChild(t, ToLeft, w);
      BelowChild(t, ToLeft, w + [s]);
      assert [ToLeft] + w + [s] == [ToLeft] + (w + [s]);
      assert RedAt(t, [ToLeft] + w);
    }
    forall w, s: Side | RedAt(t.right, w) ensures !RedAt(t.right, w + [s]) {
      BelowChild(t, ToRight, w);
      BelowChild(t, ToRight, w + [s]);
      assert [ToRight] + w + [s] == [ToRight] + (w + [s]);
      assert RedAt(t, [ToRight] + w);
    }
    if t.color == Red {
      assert RedAt(t, []) && [] + [ToLeft] == [ToLeft] && [] + [ToRight] == [ToRight];
      BelowChild(t, ToLeft, []);
      BelowChild(t, ToRight, []);
      assert Down(t, [ToLeft]) == t.left && Down(t, [ToRight]) == t.right;
      assert !RedAt(t, [] + [ToLeft]) && !RedAt(t, [] + [ToRight]);
    }
  }

  lemma {:induction false} RedOfChildren(t: Tree)
    requires t.Branch? ==>
      && NoRedBelowRed(t.left) && NoRedBelowRed(t.right)
      && (t.color == Red ==> !RedNode(t.left) && !RedNode(t.right))
    ensures NoRedBelowRed(t)
  {
    forall w, s: Side | RedAt(t, w) ensures !RedAt(t, w + [s]) {
      RedAtBelow(t, w, s);
    }
  }

  lemma {:induction false} RedAtBelow(t: Tree, w: seq<Side>, s: Side)
    requires RedAt(t, w)
    requires t.Branch? ==>
      && NoRedBelowRed(t.left) && NoRedBelowRed(t.right)
      && (t.color == Red ==> !RedNode(t.left) && !RedNode(t.right))
    ensures !RedAt(t, w + [s])
  {
    if w == [] {
      assert w + [s] == [s] + [];
      BelowChild(t, s, []);
    } else {
      var u := if w[0].ToLeft? then t.left else t.right;
      assert w == [w[0]] + w[1..] && w + [s] == [w[0]] + (w[1..] + [s]);
      BelowChild(t, w[0], w[1..]);
      BelowChild(t, w[0], w[1..] + [s]);
      assert RedAt(u, w[1..]);
    }
  }

  lemma {:induction false} BlacksBelow(t: Tree, h: nat)
    requires t.Branch?
    ensures SameBlacks(t, h) <==>
      if t.color == Red then SameBlacks(t.left, h) && SameBlacks(t.right, h)
      else h > 0 && SameBlacks(t.left, h - 1) && SameBlacks(t.right, h - 1)
  {
    var c: nat := if t.color == Black then 1 else 0;
    if SameBlacks(t, h) {
      var w := SomeWay(t);
      assert w == [w[0]] + w[1..];
      BelowChild(t, w[0], w[1..]);
      assert h >= c;
      forall v | WholeWay(t.left, v) ensures BlackNodes(t.left, v) == h - c {
        BelowChild(t, ToLeft, v);
      }
      forall v | WholeWay(t.right, v) ensures BlackNodes(t.right, v) == h - c {
        BelowChild(t, ToRight, v);
      }
    }
    if h >= c && SameBlacks(t.left, h - c) && SameBlacks(t.right, h - c) {
      forall w | WholeWay(t, w) ensures BlackNodes(t, w) == h {
        assert w == [w[0]] + w[1..];
        BelowChild(t, w[0], w[1..]);
      }
    }
  }

  /** The rules for a subtree, told by its ways. */
  lemma {:induction false} BalancedByWays(t: Tree, h: nat)
    ensures Balanced(t, h) <==> NoRedBelowRed(t) && SameBlacks(t, h)
    decreases t
  {
    hide NoRedBelowRed, SameBlacks;
    match t
    case Leaf =>
      LeafByWays(h);
    case Branch(l, x, c, r) =>
      BlacksBelow(t, h);
      var k: nat := if c == Red then h else if h > 0 then h - 1 else 0;
      BalancedByWays(l, k);
      BalancedByWays(r, k);
      if NoRedBelowRed(t) { ChildrenOfRed(t); }
      if NoRedBelowRed(l) && NoRedBelowRed(r) && (c == Red ==> !RedNode(l) && !RedNode(r)) { RedOfChildren(t); }
  }

  lemma {:induction false} LeafByWays(h: nat)
    ensures NoRedBelowRed(Leaf) && (SameBlacks(Leaf, h) <==> h == 0)
  {
    assert WholeWay(Leaf, []) && BlackNodes(Leaf, []) == 0;
  }

  /** A valid tree: the root is not red, no red node is right below a red one, and all ways down pass equally many black
      nodes. */
  lemma {:induction false} RedBlackByWays(t: Tree)
    ensures RedBlack(t) <==> !RedNode(t) && NoRedBelowRed(t) && exists h: nat :: SameBlacks(t, h)
  {
    forall h: nat ensures Balanced(t, h) <==> NoRedBelowRed(t) && SameBlacks(t, h) {
      BalancedByWays(t, h);
    }
  }

  /** No way is longer than the height, and there is one of that length. */
  lemma {:induction false} LongestWay(t: Tree) returns (w: seq<Side>)
    ensures WholeWay(t, w) && |w| == Height(t)
    decreases t
  {
    if t.Leaf? {
      w := [];
    } else {
      var s := if Height(t.left) < Height(t.right) then ToRight else ToLeft;
      w := LongestWay(if s.ToLeft? then t.left else t.right);
      BelowChild(t, s, w);
      w := [s] + w;
    }
  }

  lemma {:induction false} NoLongerWay(t: Tree, w: seq<Side>)
    requires WholeWay(t, w)
    ensures |w| <= Height(t)
    decreases w
  {
    if w != [] {
      NoLongerWay(if w[0].ToLeft? then t.left else t.right, w[1..]);
    }
  }

  /** The nodes of a subtree stand together in the order. */
  lemma {:induction false} StandTogether(t: Tree, w: seq<Side>) returns (a: seq<Node>, b: seq<Node>)
    ensures Inorder(t) == a + Inorder(Down(t, w)) + b
    decreases w
  {
    if w == [] || t.Leaf? {
      a, b := if t.Leaf? then [] else [], [];
      LeafAtAll(t, w);
      assert Inorder(t) == [] + Inorder(Down(t, w)) + [];
    } else if w[0].ToLeft? {
      var c;
      a, c := StandTogether(t.left, w[1..]);
      b := c + [t.node] + Inorder(t.right);
      Regrouped(a, Inorder(Down(t, w)), c, [t.node], Inorder(t.right));
    } else {
      var c;
      c, b := StandTogether(t.right, w[1..]);
      a := Inorder(t.left) + [t.node] + c;
      assert Inorder(t) == a + Inorder(Down(t, w)) + b;
    }
  }

  lemma LeafAtAll(t: Tree, w: seq<Side>)
    requires w == [] || t.Leaf?
    ensures Down(t, w) == t
  {
  }

  lemma Regrouped(a: seq<Node>, m: seq<Node>, c: seq<Node>, x: seq<Node>, r: seq<Node>)
    ensures (a + m + c) + x + r == a + m + (c + x + r)
  {
  }

  lemma {:induction false} DownTwice(t: Tree, w: seq<Side>, v: seq<Side>)
    ensures Down(t, w + v) == Down(Down(t, w), v)
    decreases w
  {
    if w == [] {
      assert w + v == v;
    } else if t.Branch? {
      assert (w + v)[1..] == w[1..] + v;
      DownTwice(if w[0].ToLeft? then t.left else t.right, w[1..], v);
    } else {
      StaysLeaf(v);
    }
  }

  lemma StaysLeaf(v: seq<Side>)
    ensures Down(Leaf, v) == Leaf
  {
  }

  /** What is below the left link of a node comes before it in the order, and what is below the right link after it. */
  lemma {:induction false} OrderBySides(t: Tree, w: seq<Side>, s: Side, v: seq<Side>)
    returns (a: seq<Node>, b: seq<Node>, c: seq<Node>)
    requires Down(t, w).Branch? && Down(t, w + ([s] + v)).Branch?
    ensures var n, m := Down(t, w).node, Down(t, w + ([s] + v)).node;
      Inorder(t) == if s == ToLeft then a + [m] + b + [n] + c else a + [n] + b + [m] + c
  {
    hide Down;
    var u := Down(t, w);
    var x := if s.ToLeft? then u.left else u.right;
    DownTwice(t, w, [s] + v);
    BelowChild(u, s, v);
    var d := Down(x, v);
    var front, back := StandTogether(t, w);
    var e, f := StandTogether(x, v);
    var dl, dr, ul, ur := Inorder(d.left), Inorder(d.right), Inorder(u.left), Inorder(u.right);
    if s == ToLeft {
      a, b, c := front + e + dl, dr + f, ur + back;
      LeftInFront(front, e, dl, [d.node], dr, f, [u.node], ur, back);
    } else {
      a, b, c := front + ul, e + dl, dr + f + back;
      RightBehind(front, ul, [u.node], e, dl, [d.node], dr, f, back);
    }
  }

  lemma LeftInFront(front: seq<Node>, e: seq<Node>, dl: seq<Node>, d: seq<Node>, dr: seq<Node>, f: seq<Node>,
                    u: seq<Node>, ur: seq<Node>, back: seq<Node>)
    ensures front + ((e + (dl + d + dr) + f) + u + ur) + back == (front + e + dl) + d + (dr + f) + u + (ur + back)
  {
    assert e + (dl + d + dr) + f == (e + dl) + d + (dr + f);
  }

  lemma RightBehind(front: seq<Node>, ul: seq<Node>, u: seq<Node>, e: seq<Node>, dl: seq<Node>, d: seq<Node>,
                    dr: seq<Node>, f: seq<Node>, back: seq<Node>)
    ensures front + (ul + u + (e + (dl + d + dr) + f)) + back == (front + ul) + u + (e + dl) + d + (dr + f + back)
  {
    assert e + (dl + d + dr) + f == (e + dl) + d + (dr + f);
  }
}
