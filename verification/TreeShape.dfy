/** The node class of the self-balancing tree and its mathematical view: trees, one-hole
    paths, in-order sequences and the red-black conditions. */
module TreeShape {

  datatype Color = Red | Black

  /** A freshly constructed node is red and linked to nothing. */
  class Node {
    var color: Color
    var parent: Node?
    var left: Node?
    var right: Node?

    constructor ()
      ensures color == Red && parent == null && left == null && right == null
    {
      color, parent, left, right := Red, null, null, null;
    }

    /** Replaces whichever child link equals `which`; the left link is tried first. */
    method SetChild(which: Node?, child: Node?)
      requires which == left || which == right
      modifies this`left, this`right
      ensures left == if which == old(left) then child else old(left)
      ensures right == if which == old(left) then old(right) else child
    {
      if which == left {
        left := child;
      } else {
        right := child;
      }
    }
  }

  /** What the links below a node describe. */
  datatype Tree = Leaf | Branch(left: Tree, node: Node, color: Color, right: Tree)

  datatype Side = ToLeft | ToRight {
    function Other(): Side {
      if ToLeft? then ToRight else ToLeft
    }
  }

  /** What the links above a node describe: the side on which it hangs below `node`,
      the subtree on the other side, and the way further up. */
  datatype Path =
    | Top
    | In(side: Side, up: Path, node: Node, color: Color, sibling: Tree)

  /** A branch given by its subtree on side `s` and the one on the other side. */
  ghost function Join(s: Side, near: Tree, x: Node, c: Color, far: Tree): Tree {
    if s.ToLeft? then Branch(near, x, c, far) else Branch(far, x, c, near)
  }

  ghost function Sub(t: Tree, s: Side): Tree
    requires t.Branch?
  {
    if s.ToLeft? then t.left else t.right
  }

  ghost function Root(t: Tree): Node? {
    if t.Leaf? then null else t.node
  }

  ghost function ParentOf(p: Path): Node? {
    if p.Top? then null else p.node
  }

  ghost function Nodes(t: Tree): set<Node> {
    if t.Leaf? then {} else Nodes(t.left) + {t.node} + Nodes(t.right)
  }

  ghost function PathNodes(p: Path): set<Node> {
    if p.Top? then {} else {p.node} + Nodes(p.sibling) + PathNodes(p.up)
  }

  ghost function Inorder(t: Tree): seq<Node> {
    if t.Leaf? then [] else Inorder(t.left) + [t.node] + Inorder(t.right)
  }

  /** The nodes that come before the hole. */
  ghost function Before(p: Path): seq<Node> {
    if p.Top? then []
    else if p.side.ToLeft? then Before(p.up)
    else Before(p.up) + Inorder(p.sibling) + [p.node]
  }

  /** The nodes that come after the hole. */
  ghost function After(p: Path): seq<Node> {
    if p.Top? then []
    else if p.side.ToLeft? then [p.node] + Inorder(p.sibling) + After(p.up)
    else After(p.up)
  }

  /** Fills the hole and closes the path one level. */
  ghost function Wrap(p: Path, t: Tree): (u: Tree)
    requires !p.Top?
    ensures u.Branch?
  {
    Join(p.side, t, p.node, p.color, p.sibling)
  }

  ghost function WithSub(t: Tree, s: Side, u: Tree): Tree
    requires t.Branch?
  {
    if s.ToLeft? then t.(left := u) else t.(right := u)
  }

  ghost function Plug(p: Path, t: Tree): Tree {
    if p.Top? then t else Plug(p.up, Wrap(p, t))
  }

  ghost function Depth(p: Path): nat {
    if p.Top? then 0 else 1 + Depth(p.up)
  }

  ghost function Height(t: Tree): nat {
    if t.Leaf? then 0
    else if Height(t.left) < Height(t.right) then 1 + Height(t.right) else 1 + Height(t.left)
  }

  // --- no node occurs twice ---

  ghost predicate Separate(t: Tree) {
    t.Branch? ==>
      && t.node !in Nodes(t.left) && t.node !in Nodes(t.right)
      && Nodes(t.left) !! Nodes(t.right)
      && Separate(t.left) && Separate(t.right)
  }

  ghost predicate SeparatePath(p: Path) {
    !p.Top? ==>
      && p.node !in Nodes(p.sibling) && p.node !in PathNodes(p.up)
      && Nodes(p.sibling) !! PathNodes(p.up)
      && Separate(p.sibling) && SeparatePath(p.up)
  }

  ghost predicate Apart(t: Tree, p: Path) {
    Separate(t) && SeparatePath(p) && Nodes(t) !! PathNodes(p)
  }

  // --- the red-black conditions ---

  ghost predicate IsRed(t: Tree) {
    t.Branch? && t.color == Red
  }

  /** No red node has a red child and every way down passes `h` black nodes. */
  ghost predicate Balanced(t: Tree, h: nat) {
    match t
    case Leaf => h == 0
    case Branch(l, x, Red, r) => !IsRed(l) && !IsRed(r) && Balanced(l, h) && Balanced(r, h)
    case Branch(l, x, Black, r) => h > 0 && Balanced(l, h - 1) && Balanced(r, h - 1)
  }

  /** Only a black subtree may hang here: below a red node, and at the root. */
  ghost predicate NeedsBlack(p: Path) {
    p.Top? || p.color == Red
  }

  /** Plugging in a subtree of black height `h` of an admitted colour gives a red-black tree. */
  ghost predicate PathBalanced(p: Path, h: nat) {
    !p.Top? ==>
      if p.color == Red then
        !NeedsBlack(p.up) && Balanced(p.sibling, h) && !IsRed(p.sibling) && PathBalanced(p.up, h)
      else
        Balanced(p.sibling, h) && PathBalanced(p.up, h + 1)
  }

  /** The whole tree: black root, no red-red edge, equal black heights. */
  ghost predicate RedBlack(t: Tree) {
    !IsRed(t) && exists h: nat :: Balanced(t, h)
  }

  // --- facts about plugging ---

  lemma {:induction false} PlugInorder(p: Path, t: Tree)
    ensures Inorder(Plug(p, t)) == Before(p) + Inorder(t) + After(p)
  {
    if !p.Top? {
      PlugInorder(p.up, Wrap(p, t));
    }
  }

  lemma {:induction false} PlugNodes(p: Path, t: Tree)
    ensures Nodes(Plug(p, t)) == Nodes(t) + PathNodes(p)
  {
    if !p.Top? {
      PlugNodes(p.up, Wrap(p, t));
    }
  }

  lemma WrapApart(p: Path, t: Tree)
    requires !p.Top?
    ensures Apart(t, p) <==> Apart(Wrap(p, t), p.up)
  {
  }

  lemma {:induction false} PlugSeparate(p: Path, t: Tree)
    ensures Apart(t, p) <==> Separate(Plug(p, t))
  {
    if !p.Top? {
      PlugSeparate(p.up, Wrap(p, t));
      WrapApart(p, t);
    }
  }

  lemma {:induction false} PlugBalanced(p: Path, t: Tree, h: nat)
    requires Balanced(t, h) && PathBalanced(p, h)
    requires NeedsBlack(p) ==> !IsRed(t)
    ensures RedBlack(Plug(p, t))
  {
    if !p.Top? {
      PlugBalanced(p.up, Wrap(p, t), if p.color == Red then h else h + 1);
    }
  }

  /** Both children of `g` turned black and `g` itself red. */
  ghost function Recolored(g: Tree): Tree
    requires g.Branch? && g.left.Branch? && g.right.Branch?
  {
    Branch(g.left.(color := Black), g.node, Red, g.right.(color := Black))
  }

  /** Recolouring around a red-red edge with a red uncle moves the conflict up two levels. */
  lemma RecoloredBalanced(p: Path, t: Tree, h: nat)
    requires IsRed(t) && Balanced(t, h) && PathBalanced(p, h) && p.In? && p.color == Red && IsRed(p.up.sibling)
    ensures var g := Wrap(p.up, Wrap(p, t));
      && p.up.color == Black && IsRed(g.left) && IsRed(g.right)
      && Balanced(Recolored(g), h + 1) && PathBalanced(p.up.up, h + 1)
      && Inorder(Plug(p.up.up, Recolored(g))) == Inorder(Plug(p, t))
  {
    var g := Wrap(p.up, Wrap(p, t));
    PlugInorder(p.up.up, g);
    PlugInorder(p.up.up, Recolored(g));
  }

  /** Conversely, any subtree of a red-black tree and the path to it carry the conditions. */
  lemma {:induction false} UnplugBalanced(p: Path, t: Tree) returns (h: nat)
    requires RedBlack(Plug(p, t))
    ensures Balanced(t, h) && PathBalanced(p, h)
    ensures NeedsBlack(p) ==> !IsRed(t)
  {
    if p.Top? {
      h :| Balanced(t, h);
    } else {
      var k := UnplugBalanced(p.up, Wrap(p, t));
      h := if p.color == Red then k else k - 1;
    }
  }

  lemma {:induction false} NodesAreInorder(t: Tree)
    ensures Nodes(t) == set x | x in Inorder(t)
  {
    if t.Branch? {
      NodesAreInorder(t.left);
      NodesAreInorder(t.right);
    }
  }

  ghost predicate Distinct(s: seq<Node>) {
    forall i, j :: 0 <= i < j < |s| ==> s[i] != s[j]
  }

  lemma {:induction false} InorderDistinct(t: Tree)
    requires Separate(t)
    ensures Distinct(Inorder(t))
  {
    if t.Branch? {
      InorderDistinct(t.left);
      InorderDistinct(t.right);
      NodesAreInorder(t.left);
      NodesAreInorder(t.right);
      var a, b := Inorder(t.left), Inorder(t.right);
      assert forall i :: 0 <= i < |a| ==> a[i] in Nodes(t.left);
      assert forall i :: 0 <= i < |b| ==> b[i] in Nodes(t.right);
    }
  }

  lemma DistinctParts(a: seq<Node>, x: Node, b: seq<Node>)
    requires Distinct(a + [x] + b)
    ensures x !in a && x !in b
  {
    var s := a + [x] + b;
    assert s[|a|] == x;
    assert forall i :: 0 <= i < |a| ==> s[i] == a[i];
    assert forall i :: 0 <= i < |b| ==> s[|a| + 1 + i] == b[i];
  }

  lemma NeighboursApart(x: seq<Node>, a: Node, b: Node, y: seq<Node>)
    requires Distinct(x + [b] + [a] + y)
    ensures a != b && a !in x && a !in y && b !in x && b !in y
  {
    DistinctParts(x + [b], a, y);
    assert x + [b] + [a] + y == x + [b] + ([a] + y);
    DistinctParts(x, b, [a] + y);
    assert b in x + [b] && a in [a] + y;
  }

  lemma SameInorder(t: Tree, u: Tree)
    requires Inorder(t) == Inorder(u)
    ensures Nodes(t) == Nodes(u)
  {
    NodesAreInorder(t);
    NodesAreInorder(u);
  }

  ghost function Inserted(s: seq<Node>, i: nat, x: Node): seq<Node>
    requires i <= |s|
  {
    s[..i] + [x] + s[i..]
  }

  /** `now` is `was` with `x` put directly before (or after) `beside`. */
  ghost predicate InsertedBeside(was: seq<Node>, now: seq<Node>, beside: Node?, side: Side, x: Node) {
    if beside == null then was == [] && now == [x]
    else exists i :: 0 <= i < |was| && was[i] == beside && now == Inserted(was, if side.ToLeft? then i else i + 1, x)
  }

  ghost function Bud(x: Node): Tree {
    Branch(Leaf, x, Red, Leaf)
  }

  /** A tree with the in-order sequence of `t` plus a bud in the hole of `p`. */
  lemma BudGrown(t: Tree, p: Path, x: Node, u: Tree)
    requires Plug(p, Leaf) == t && Inorder(u) == Inorder(Plug(p, Bud(x)))
    ensures Inorder(u) == Before(p) + [x] + After(p)
    ensures Nodes(u) == Nodes(t) + {x}
    ensures |Inorder(u)| == |Inorder(t)| + 1
  {
    assert Nodes(Leaf) == {} && Inorder(Bud(x)) == [x];
    assert Nodes(Bud(x)) == {} + {x} + {};
    PlugInorder(p, Leaf);
    PlugInorder(p, Bud(x));
    assert Nodes(u) == Nodes(t) + {x} by {
      PlugNodes(p, Leaf);
      PlugNodes(p, Bud(x));
      SameInorder(u, Plug(p, Bud(x)));
    }
  }

  // --- the height bound ---

  ghost function Pow2(n: nat): nat {
    if n == 0 then 1 else 2 * Pow2(n - 1)
  }

  lemma {:induction false} SizeBound(t: Tree, h: nat)
    requires Balanced(t, h)
    ensures Pow2(h) <= |Inorder(t)| + 1
    ensures Height(t) <= 2 * h + (if IsRed(t) then 1 else 0)
  {
    if t.Branch? {
      var k := if t.color == Red then h else h - 1;
      SizeBound(t.left, k);
      SizeBound(t.right, k);
    }
  }

  lemma {:induction false} Pow2Twice(a: nat, b: nat)
    requires a <= 2 * b
    ensures Pow2(a) <= Pow2(b) * Pow2(b)
  {
    if a >= 2 {
      Pow2Twice(a - 2, b - 1);
      assert Pow2(a) == 4 * Pow2(a - 2);
      assert Pow2(b) * Pow2(b) == 4 * (Pow2(b - 1) * Pow2(b - 1));
    } else {
      Pow2Positive(b);
      if a == 1 { Pow2Positive(b - 1); }
    }
  }

  lemma {:induction false} Pow2Positive(n: nat)
    ensures Pow2(n) >= 1
  {
    if n > 0 { Pow2Positive(n - 1); }
  }

  /** Height at most 2 * log2(n + 1). */
  lemma HeightBound(t: Tree)
    requires RedBlack(t)
    ensures Pow2(Height(t)) <= (|Inorder(t)| + 1) * (|Inorder(t)| + 1)
  {
    var h: nat :| Balanced(t, h);
    SizeBound(t, h);
    Pow2Twice(Height(t), h);
    var n := |Inorder(t)| + 1;
    assert Pow2(h) * Pow2(h) <= n * n by { MulMono(Pow2(h), n); }
  }

  lemma MulMono(a: nat, b: nat)
    requires a <= b
    ensures a * a <= b * b
  {
  }
}
