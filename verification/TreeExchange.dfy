/** Exchanging the places of two nodes of a tree. */
module TreeExchange {
  import opened TreeShape
  import opened Links

  /** The transposition of `a` and `b`. */
  function Transposed(a: Node, b: Node, n: Node): Node {
    if n == a then b else if n == b then a else n
  }

  function Swapped(a: Node, b: Node, n: Node?): Node? {
    if n == null then null else Transposed(a, b, n)
  }

  function SwappedLink(a: Node, b: Node, l: Link): Link {
    Link(l.color, Swapped(a, b, l.parent), Swapped(a, b, l.left), Swapped(a, b, l.right))
  }

  /** `a` and `b` change places; colours stay where they are. */
  ghost function Exchange(t: Tree, a: Node, b: Node): Tree {
    if t.Leaf? then Leaf
    else Branch(Exchange(t.left, a, b), Transposed(a, b, t.node), t.color, Exchange(t.right, a, b))
  }

  lemma {:induction false} ExchangeNodes(t: Tree, a: Node, b: Node)
    ensures Nodes(Exchange(t, a, b)) == set x | x in Nodes(t) :: Transposed(a, b, x)
  {
    if t.Branch? {
      ExchangeNodes(t.left, a, b);
      ExchangeNodes(t.right, a, b);
    }
  }

  lemma ExchangeKeepsNodes(t: Tree, a: Node, b: Node)
    requires a in Nodes(t) && b in Nodes(t)
    ensures Nodes(Exchange(t, a, b)) == Nodes(t)
  {
    ExchangeNodes(t, a, b);
    var image := set x | x in Nodes(t) :: Transposed(a, b, x);
    forall x | x in Nodes(t) ensures x in image {
      var y := Transposed(a, b, x);
      assert y in Nodes(t) && Transposed(a, b, y) == x;
    }
  }

  lemma {:induction false} ExchangeSeparate(t: Tree, a: Node, b: Node)
    requires Separate(t)
    ensures Separate(Exchange(t, a, b))
  {
    if t.Branch? {
      ExchangeSeparate(t.left, a, b);
      ExchangeSeparate(t.right, a, b);
      ExchangeNodes(t.left, a, b);
      ExchangeNodes(t.right, a, b);
    }
  }

  lemma {:induction false} ExchangeBalanced(t: Tree, h: nat, a: Node, b: Node)
    requires Balanced(t, h)
    ensures Balanced(Exchange(t, a, b), h) && IsRed(Exchange(t, a, b)) == IsRed(t)
  {
    if t.Branch? {
      ExchangeBalanced(t.left, if t.color == Red then h else h - 1, a, b);
      ExchangeBalanced(t.right, if t.color == Red then h else h - 1, a, b);
    }
  }

  ghost function ExchangeSeq(s: seq<Node>, a: Node, b: Node): seq<Node> {
    if s == [] then [] else [Transposed(a, b, s[0])] + ExchangeSeq(s[1..], a, b)
  }

  lemma {:induction false} ExchangeSeqConcat(s: seq<Node>, u: seq<Node>, a: Node, b: Node)
    ensures ExchangeSeq(s + u, a, b) == ExchangeSeq(s, a, b) + ExchangeSeq(u, a, b)
  {
    if s == [] {
      assert s + u == u;
    } else {
      ExchangeSeqConcat(s[1..], u, a, b);
      var w, x := s + u, [Transposed(a, b, s[0])];
      assert w[0] == s[0] && w[1..] == s[1..] + u;
      assert x + (ExchangeSeq(s[1..], a, b) + ExchangeSeq(u, a, b))
        == x + ExchangeSeq(s[1..], a, b) + ExchangeSeq(u, a, b);
    }
  }

  lemma {:induction false} ExchangeSeqAbsent(s: seq<Node>, a: Node, b: Node)
    requires a !in s && b !in s
    ensures ExchangeSeq(s, a, b) == s
  {
    if s != [] {
      ExchangeSeqAbsent(s[1..], a, b);
    }
  }

  lemma {:induction false} ExchangeInorder(t: Tree, a: Node, b: Node)
    ensures Inorder(Exchange(t, a, b)) == ExchangeSeq(Inorder(t), a, b)
  {
    if t.Branch? {
      ExchangeInorder(t.left, a, b);
      ExchangeInorder(t.right, a, b);
      ExchangeSeqConcat(Inorder(t.left) + [t.node], Inorder(t.right), a, b);
      ExchangeSeqConcat(Inorder(t.left), [t.node], a, b);
    }
  }

  /** Neighbours in the in-order sequence just trade places. */
  lemma ExchangeNeighbours(t: Tree, x: seq<Node>, a: Node, b: Node, y: seq<Node>)
    requires Inorder(t) == x + [b] + [a] + y
    requires a !in x && a !in y && b !in x && b !in y
    ensures Inorder(Exchange(t, a, b)) == x + [a] + [b] + y
  {
    ExchangeInorder(t, a, b);
    ExchangeSeqConcat(x + [b] + [a], y, a, b);
    ExchangeSeqConcat(x + [b], [a], a, b);
    ExchangeSeqConcat(x, [b], a, b);
    ExchangeSeqAbsent(x, a, b);
    ExchangeSeqAbsent(y, a, b);
  }

  /** The links after the exchange, node by node. */
  ghost predicate Exchanged(m: Links, k: Links, a: Node, b: Node) {
    forall x :: x in m ==> Swapped(a, b, x) in k && k[Swapped(a, b, x)] == SwappedLink(a, b, m[x])
  }

  lemma ExchangedFrom(m: Links, k: Links, a: Node, b: Node)
    requires a in m && b in m && m.Keys == k.Keys
    requires k[b] == SwappedLink(a, b, m[a]) && k[a] == SwappedLink(a, b, m[b])
    requires forall x :: x in m && x != a && x != b ==> k[x] == SwappedLink(a, b, m[x])
    ensures Exchanged(m, k, a, b)
  {
  }

  lemma SwappedRight(m: Links, k: Links, a: Node, b: Node)
    requires Exchanged(m, k, a, b) && a != b && b in m && m[b].right == null
    ensures a in k && k[a].right == null
  {
    assert Swapped(a, b, b) == a;
  }

  lemma {:induction false} ExchangedShape(m: Links, k: Links, t: Tree, n: Node?, parent: Node?, a: Node, b: Node)
    requires Shape(m, t, n, parent) && Exchanged(m, k, a, b)
    ensures Shape(k, Exchange(t, a, b), Swapped(a, b, n), Swapped(a, b, parent))
  {
    if t.Branch? {
      ExchangedShape(m, k, t.left, m[n].left, n, a, b);
      ExchangedShape(m, k, t.right, m[n].right, n, a, b);
    }
  }

  /** Links agree with back links at `x`. */
  ghost predicate Mutual(m: Links, root: Node?, x: Node) {
    && x in m && m[x].left != x && m[x].right != x && m[x].parent != x
    && (m[x].left != null ==> m[x].left in m && m[m[x].left].parent == x && m[x].left != m[x].right)
    && (m[x].right != null ==> m[x].right in m && m[m[x].right].parent == x)
    && (if m[x].parent == null then x == root
        else m[x].parent in m && x != root && (m[m[x].parent].left == x || m[m[x].parent].right == x))
  }

  /** Links agree with back links, everywhere. */
  ghost predicate Consistent(m: Links, root: Node?) {
    && (forall x {:trigger Mutual(m, root, x)} :: x in m ==> Mutual(m, root, x))
    && (root != null ==> root in m && m[root].parent == null)
  }

  lemma MutualAt(m: Links, root: Node?, t: Tree, x: Node)
    requires At(m, root, t, Top) && x in Nodes(t)
    ensures Mutual(m, root, x)
  {
    var s, q := FocusOn(m, root, t, Top, x);
    Hangs(m, root, s, q);
    FocusDown(m, root, s, q, ToLeft);
    FocusDown(m, root, s, q, ToRight);
    assert q.In? ==> q.node in PathNodes(q);
    assert forall d :: Sub(s, d).Branch? ==> Root(Sub(s, d)) in Nodes(Sub(s, d));
    if s.left.Branch? { Hangs(m, root, s.left, Down(s, q, ToLeft)); }
    if s.right.Branch? { Hangs(m, root, s.right, Down(s, q, ToRight)); }
  }

  lemma TreeIsConsistent(m: Links, root: Node?, t: Tree)
    requires At(m, root, t, Top) && m.Keys == Nodes(t)
    ensures Consistent(m, root)
  {
    forall x | x in m ensures Mutual(m, root, x) {
      MutualAt(m, root, t, x);
    }
    if t.Branch? {
      Hangs(m, root, t, Top);
    }
  }

  /** Exchanging two nodes of a red-black tree gives a red-black tree of the same nodes. */
  lemma ExchangedTree(m: Links, k: Links, root: Node?, t: Tree, a: Node, b: Node)
    requires At(m, root, t, Top) && RedBlack(t) && a in Nodes(t) && b in Nodes(t) && Exchanged(m, k, a, b)
    ensures At(k, Swapped(a, b, root), Exchange(t, a, b), Top)
    ensures RedBlack(Exchange(t, a, b)) && Nodes(Exchange(t, a, b)) == Nodes(t)
  {
    ExchangedShape(m, k, t, root, null, a, b);
    ExchangeSeparate(t, a, b);
    ExchangeKeepsNodes(t, a, b);
    var h: nat :| Balanced(t, h);
    ExchangeBalanced(t, h, a, b);
  }
}
