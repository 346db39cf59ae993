/** The in-order neighbours of a node. */
module TreeOrder {
  import opened TreeShape

  ghost function First(s: seq<Node>): Node? {
    if s == [] then null else s[0]
  }

  ghost function Last(s: seq<Node>): Node? {
    if s == [] then null else s[|s| - 1]
  }

  /** The element after `n`; the first one if `n` is null. */
  ghost function NextOf(s: seq<Node>, n: Node?): Node? {
    if n == null then First(s)
    else if s == [] then null
    else if s[0] == n then First(s[1..])
    else NextOf(s[1..], n)
  }

  /** The element before `n`; the last one if `n` is null. */
  ghost function PreviousOf(s: seq<Node>, n: Node?): Node? {
    if n == null then Last(s)
    else if s == [] then null
    else if s[|s| - 1] == n then Last(s[..|s| - 1])
    else PreviousOf(s[..|s| - 1], n)
  }

  lemma {:induction false} NextInSequence(a: seq<Node>, n: Node, b: seq<Node>)
    requires n !in a
    ensures NextOf(a + [n] + b, n) == First(b)
  {
    if a == [] {
      assert a + [n] + b == [n] + b;
    } else {
      NextInSequence(a[1..], n, b);
      assert (a + [n] + b)[1..] == a[1..] + [n] + b;
    }
  }

  lemma {:induction false} PreviousInSequence(a: seq<Node>, n: Node, b: seq<Node>)
    requires n !in b
    ensures PreviousOf(a + [n] + b, n) == Last(a)
  {
    var s := a + [n] + b;
    if b == [] {
      assert s == a + [n];
      assert s[..|s| - 1] == a;
    } else {
      PreviousInSequence(a, n, b[..|b| - 1]);
      assert s[..|s| - 1] == a + [n] + b[..|b| - 1];
    }
  }

  lemma NeighboursOf(a: seq<Node>, l: seq<Node>, n: Node, r: seq<Node>, b: seq<Node>)
    requires Distinct(a + (l + [n] + r) + b)
    ensures NextOf(a + (l + [n] + r) + b, n) == First(r + b)
    ensures PreviousOf(a + (l + [n] + r) + b, n) == Last(a + l)
  {
    assert a + (l + [n] + r) + b == (a + l) + [n] + (r + b);
    DistinctParts(a + l, n, r + b);
    NextInSequence(a + l, n, r + b);
    PreviousInSequence(a + l, n, r + b);
  }

  /** The neighbours of a node in focus. */
  lemma NeighboursInTree(tree: Tree, t: Tree, p: Path)
    requires Separate(tree) && Plug(p, t) == tree && t.Branch?
    ensures NextOf(Inorder(tree), t.node) == First(Inorder(t.right) + After(p))
    ensures PreviousOf(Inorder(tree), t.node) == Last(Before(p) + Inorder(t.left))
  {
    PlugInorder(p, t);
    InorderDistinct(tree);
    NeighboursOf(Before(p), Inorder(t.left), t.node, Inorder(t.right), After(p));
  }

  lemma NeighboursAt(s: seq<Node>, i: nat)
    requires Distinct(s) && i < |s|
    ensures NextOf(s, s[i]) == if i + 1 < |s| then s[i + 1] else null
    ensures PreviousOf(s, s[i]) == if i == 0 then null else s[i - 1]
  {
    var a, b := s[..i], s[i + 1..];
    assert s == a + [s[i]] + b;
    DistinctParts(a, s[i], b);
    NextInSequence(a, s[i], b);
    PreviousInSequence(a, s[i], b);
  }

  /** Stepping forth and back returns to where one was. */
  lemma StepsUndo(s: seq<Node>, n: Node?)
    requires Distinct(s) && (n == null || n in s)
    ensures PreviousOf(s, NextOf(s, n)) == n
    ensures NextOf(s, PreviousOf(s, n)) == n
  {
    if n == null {
      if s != [] { NeighboursAt(s, 0); NeighboursAt(s, |s| - 1); }
    } else {
      var i :| 0 <= i < |s| && s[i] == n;
      NeighboursAt(s, i);
      if i > 0 { NeighboursAt(s, i - 1); }
      if i + 1 < |s| { NeighboursAt(s, i + 1); }
    }
  }

  /** Where `k` steps from null lead. */
  ghost function Walk(s: seq<Node>, k: nat): Node? {
    if k == 0 then null else NextOf(s, Walk(s, k - 1))
  }

  /** A full traversal visits every element once, in order, and ends at null again. */
  lemma {:induction false} WalkVisitsAll(s: seq<Node>, k: nat)
    requires Distinct(s) && k <= |s| + 1
    ensures Walk(s, k) == if 0 < k <= |s| then s[k - 1] else null
  {
    if k > 0 {
      WalkVisitsAll(s, k - 1);
      if k > 1 { NeighboursAt(s, k - 2); }
    }
  }
}
