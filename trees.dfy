/**
 * Shapes of binary trees whose nodes carry an identity (the slot of the node
 * in the arena that holds the mutable tree) and a value, addressed by paths
 * of left/right steps from the root.  These are the ghost mirror of the
 * pointer structure kept by `SplayTree`.
 */
module Trees {

  datatype Dir = Left | Right

  type Path = seq<Dir>

  /** One entry of an in-order walk: which node, and the value it holds. */
  datatype Elem = Elem(id: nat, value: int)

  datatype Tree = Leaf | Node(left: Tree, id: nat, value: int, right: Tree)

  /** The identities of the nodes of `t`. */
  function Ids(t: Tree): set<nat>
  {
    match t
    case Leaf => {}
    case Node(l, i, _, r) => Ids(l) + {i} + Ids(r)
  }

  /** The nodes of `t` in symmetric (left, node, right) order. */
  function InOrder(t: Tree): seq<Elem>
  {
    match t
    case Leaf => []
    case Node(l, i, x, r) => InOrder(l) + [Elem(i, x)] + InOrder(r)
  }

  function Size(t: Tree): nat
  {
    match t
    case Leaf => 0
    case Node(l, _, _, r) => Size(l) + 1 + Size(r)
  }

  /** No node identity occurs twice: the shape is a tree, not a DAG. */
  predicate Unique(t: Tree)
  {
    match t
    case Leaf => true
    case Node(l, i, _, r) =>
      i !in Ids(l) && i !in Ids(r) && Ids(l) !! Ids(r) && Unique(l) && Unique(r)
  }

  function Child(t: Tree, d: Dir): Tree
    requires t.Node?
  {
    if d == Left then t.left else t.right
  }

  function WithChild(t: Tree, d: Dir, c: Tree): Tree
    requires t.Node?
  {
    if d == Left then t.(left := c) else t.(right := c)
  }

  /** Every step of `p` but possibly the last leaves a node. */
  predicate OnPath(t: Tree, p: Path)
  {
    p == [] || (t.Node? && OnPath(Child(t, p[0]), p[1..]))
  }

  /** The subtree reached by following `p` from the root. */
  function Sub(t: Tree, p: Path): Tree
    requires OnPath(t, p)
  {
    if p == [] then t else Sub(Child(t, p[0]), p[1..])
  }

  /** `p` leads to a node (not an empty link). */
  predicate IsNodePath(t: Tree, p: Path)
  {
    OnPath(t, p) && Sub(t, p).Node?
  }

  /** `t` with the subtree at `p` replaced by `s`. */
  function Replace(t: Tree, p: Path, s: Tree): Tree
    requires OnPath(t, p)
  {
    if p == [] then s else WithChild(t, p[0], Replace(Child(t, p[0]), p[1..], s))
  }

  /** The path from the root to the node with identity `i`. */
  function PathTo(t: Tree, i: nat): Path
    requires i in Ids(t)
  {
    match t
    case Node(l, j, _, r) =>
      if j == i then []
      else if i in Ids(l) then [Left] + PathTo(l, i)
      else [Right] + PathTo(r, i)
  }

  /** The in-order entries that come before the subtree at `p`. */
  function LeftCtx(t: Tree, p: Path): seq<Elem>
    requires OnPath(t, p)
  {
    if p == [] then []
    else if p[0] == Left then LeftCtx(t.left, p[1..])
    else InOrder(t.left) + [Elem(t.id, t.value)] + LeftCtx(t.right, p[1..])
  }

  /** The in-order entries that come after the subtree at `p`. */
  function RightCtx(t: Tree, p: Path): seq<Elem>
    requires OnPath(t, p)
  {
    if p == [] then []
    else if p[0] == Left then RightCtx(t.left, p[1..]) + [Elem(t.id, t.value)] + InOrder(t.right)
    else RightCtx(t.right, p[1..])
  }

  /** The identities a path-ordered sequence of entries mentions. */
  function IdsOf(s: seq<Elem>): set<nat>
  {
    set k | 0 <= k < |s| :: s[k].id
  }

  // ---------------------------------------------------------------------------
  // Paths

  lemma {:induction false} SubAppend(t: Tree, a: Path, b: Path)
    requires OnPath(t, a) && OnPath(Sub(t, a), b)
    ensures OnPath(t, a + b) && Sub(t, a + b) == Sub(Sub(t, a), b)
  {
    if a != [] {
      assert (a + b)[0] == a[0] && (a + b)[1..] == a[1..] + b;
      SubAppend(Child(t, a[0]), a[1..], b);
    } else {
      assert a + b == b;
    }
  }

  /** Going one step further down a node path. */
  lemma SubStep(t: Tree, a: Path, d: Dir)
    requires IsNodePath(t, a)
    ensures OnPath(t, a + [d]) && Sub(t, a + [d]) == Child(Sub(t, a), d)
  {
    SubAppend(t, a, [d]);
  }

  lemma {:induction false} ReplaceAppend(t: Tree, a: Path, b: Path, s: Tree)
    requires OnPath(t, a) && OnPath(Sub(t, a), b)
    ensures OnPath(t, a + b)
    ensures Replace(t, a + b, s) == Replace(t, a, Replace(Sub(t, a), b, s))
  {
    SubAppend(t, a, b);
    if a != [] {
      assert (a + b)[0] == a[0] && (a + b)[1..] == a[1..] + b;
      ReplaceAppend(Child(t, a[0]), a[1..], b, s);
    } else {
      assert a + b == b;
    }
  }

  /** After a replacement the path still leads to the new subtree, and the
      surrounding in-order context is untouched. */
  lemma {:induction false} ReplaceSub(t: Tree, p: Path, s: Tree)
    requires OnPath(t, p)
    ensures OnPath(Replace(t, p, s), p) && Sub(Replace(t, p, s), p) == s
    ensures LeftCtx(Replace(t, p, s), p) == LeftCtx(t, p)
    ensures RightCtx(Replace(t, p, s), p) == RightCtx(t, p)
  {
    if p != [] {
      ReplaceSub(Child(t, p[0]), p[1..], s);
    }
  }

  lemma {:induction false} ReplaceTwice(t: Tree, p: Path, s1: Tree, s2: Tree)
    requires OnPath(t, p)
    ensures OnPath(Replace(t, p, s1), p)
    ensures Replace(Replace(t, p, s1), p, s2) == Replace(t, p, s2)
  {
    ReplaceSub(t, p, s1);
    if p != [] {
      ReplaceTwice(Child(t, p[0]), p[1..], s1, s2);
    }
  }

  // ---------------------------------------------------------------------------
  // In-order decomposition along a path

  lemma {:induction false} InOrderSplit(t: Tree, p: Path)
    requires OnPath(t, p)
    ensures InOrder(t) == LeftCtx(t, p) + InOrder(Sub(t, p)) + RightCtx(t, p)
  {
    if p != [] {
      InOrderSplit(Child(t, p[0]), p[1..]);
    }
  }

  /** The in-order sequence of a tree after replacing the subtree at `p`. */
  lemma ReplaceInOrder(t: Tree, p: Path, s: Tree)
    requires OnPath(t, p)
    ensures InOrder(Replace(t, p, s)) == LeftCtx(t, p) + InOrder(s) + RightCtx(t, p)
    ensures InOrder(t) == LeftCtx(t, p) + InOrder(Sub(t, p)) + RightCtx(t, p)
  {
    ReplaceSub(t, p, s);
    InOrderSplit(t, p);
    InOrderSplit(Replace(t, p, s), p);
  }

  lemma {:induction false} IdsOfInOrder(t: Tree)
    ensures IdsOf(InOrder(t)) == Ids(t)
  {
    match t
    case Leaf =>
    case Node(l, i, x, r) =>
      IdsOfInOrder(l);
      IdsOfInOrder(r);
      IdsOfAppend(InOrder(l), [Elem(i, x)]);
      IdsOfAppend(InOrder(l) + [Elem(i, x)], InOrder(r));
      assert [Elem(i, x)][0].id == i;
      assert IdsOf([Elem(i, x)]) == {i};
  }

  lemma IdsOfAppend(a: seq<Elem>, b: seq<Elem>)
    ensures IdsOf(a + b) == IdsOf(a) + IdsOf(b)
  {
    forall i | i in IdsOf(a + b) ensures i in IdsOf(a) + IdsOf(b) {
      var k :| 0 <= k < |a + b| && (a + b)[k].id == i;
      if k >= |a| {
        assert b[k - |a|].id == i;
      }
    }
    forall i | i in IdsOf(a) ensures i in IdsOf(a + b) {
      var k :| 0 <= k < |a| && a[k].id == i;
      assert (a + b)[k].id == i;
    }
    forall i | i in IdsOf(b) ensures i in IdsOf(a + b) {
      var k :| 0 <= k < |b| && b[k].id == i;
      assert (a + b)[k + |a|].id == i;
    }
  }

  // ---------------------------------------------------------------------------
  // Identities

  lemma {:induction false} SubIds(t: Tree, p: Path)
    requires OnPath(t, p)
    ensures Ids(Sub(t, p)) <= Ids(t)
    ensures Unique(t) ==> Unique(Sub(t, p))
  {
    if p != [] {
      SubIds(Child(t, p[0]), p[1..]);
    }
  }

  /** Replacing a subtree by one whose identities are new to the rest of the
      tree keeps identities unique and swaps the identity sets. */
  lemma {:induction false} ReplaceIds(t: Tree, p: Path, s: Tree)
    requires OnPath(t, p) && Unique(t) && Unique(s)
    requires Ids(s) !! (Ids(t) - Ids(Sub(t, p)))
    ensures Unique(Replace(t, p, s))
    ensures Ids(Replace(t, p, s)) == (Ids(t) - Ids(Sub(t, p))) + Ids(s)
  {
    if p != [] {
      var c := Child(t, p[0]);
      SubIds(c, p[1..]);
      ReplaceIds(c, p[1..], s);
    }
  }

  lemma {:induction false} PathToSub(t: Tree, i: nat)
    requires i in Ids(t)
    ensures IsNodePath(t, PathTo(t, i)) && Sub(t, PathTo(t, i)).id == i
  {
    match t
    case Node(l, j, _, r) =>
      if j != i {
        if i in Ids(l) { PathToSub(l, i); } else { PathToSub(r, i); }
      }
  }

  /** In a tree with unique identities a node has exactly one path. */
  lemma {:induction false} PathToUnique(t: Tree, p: Path)
    requires Unique(t) && IsNodePath(t, p)
    ensures Sub(t, p).id in Ids(t) && PathTo(t, Sub(t, p).id) == p
  {
    if p != [] {
      var c := Child(t, p[0]);
      PathToUnique(c, p[1..]);
      assert p == [p[0]] + p[1..];
    }
  }
}
