/**
 * The search-tree order and the descents that rely on it: the lookup
 * descent of `find`, the insertion descent of `Insert`, and the right-spine
 * descent of `max`, with what each one finds.
 */
module Search {
  import opened Trees

  datatype Option<T> = None | Some(value: T)

  /** In-order values never decrease.  Equal values may sit on either side of
      each other: insertion sends them right, and a left rotation can then
      bring an equal value into a left subtree. */
  predicate Sorted(s: seq<Elem>)
  {
    forall i, j :: 0 <= i < j < |s| ==> s[i].value <= s[j].value
  }

  predicate Ordered(t: Tree)
  {
    Sorted(InOrder(t))
  }

  predicate Contains(t: Tree, v: int)
  {
    exists e :: e in InOrder(t) && e.value == v
  }

  /** The split of a sorted in-order sequence at a node. */
  lemma SortedParts(a: seq<Elem>, m: Elem, b: seq<Elem>)
    requires Sorted(a + [m] + b)
    ensures Sorted(a) && Sorted(b)
    ensures forall e :: e in a ==> e.value <= m.value
    ensures forall e :: e in b ==> m.value <= e.value
  {
    var s := a + [m] + b;
    assert forall i :: 0 <= i < |a| ==> s[i] == a[i];
    assert forall i :: 0 <= i < |b| ==> s[|a| + 1 + i] == b[i];
    assert s[|a|] == m;
  }

  lemma OrderedNode(t: Tree)
    requires t.Node? && Ordered(t)
    ensures Ordered(t.left) && Ordered(t.right)
    ensures forall e :: e in InOrder(t.left) ==> e.value <= t.value
    ensures forall e :: e in InOrder(t.right) ==> t.value <= e.value
  {
    SortedParts(InOrder(t.left), Elem(t.id, t.value), InOrder(t.right));
  }

  /** Putting an element between two sorted runs that it separates. */
  lemma SortedJoin(a: seq<Elem>, m: Elem, b: seq<Elem>)
    requires Sorted(a) && Sorted(b)
    requires forall e :: e in a ==> e.value <= m.value
    requires forall e :: e in b ==> m.value <= e.value
    ensures Sorted(a + [m] + b)
  {
    var s := a + [m] + b;
    forall i, j | 0 <= i < j < |s| ensures s[i].value <= s[j].value {
      if i < |a| {
        assert s[i] in a;
        if j >= |a| + 1 { assert s[j] in b; }
      } else if i == |a| {
        assert s[j] in b;
      }
    }
  }

  // ---------------------------------------------------------------------------
  // Lookup (find)

  /** The lookup descent: stop at a node whose value compares equal, go left
      when the node's value is greater, right when it is smaller. */
  function FindPath(t: Tree, v: int): Option<Path>
  {
    match t
    case Leaf => None
    case Node(l, _, x, r) =>
      if x == v then Some([])
      else if x > v then
        (match FindPath(l, v) case None => None case Some(p) => Some([Left] + p))
      else
        (match FindPath(r, v) case None => None case Some(p) => Some([Right] + p))
  }

  /** A lookup result seen from the root, when the lookup started below `D`. */
  function Extend(D: Path, o: Option<Path>): Option<Path>
  {
    match o
    case None => None
    case Some(q) => Some(D + q)
  }

  /** One step of the lookup descent below `D`: the result seen from the root
      does not change when the descent moves to the child it picks. */
  lemma FindStep(t: Tree, D: Path, v: int)
    requires IsNodePath(t, D) && Sub(t, D).value != v
    ensures var d := if Sub(t, D).value > v then Left else Right;
      OnPath(t, D + [d]) && Sub(t, D + [d]) == Child(Sub(t, D), d) &&
      Extend(D, FindPath(Sub(t, D), v)) == Extend(D + [d], FindPath(Sub(t, D + [d]), v))
  {
    var d := if Sub(t, D).value > v then Left else Right;
    SubStep(t, D, d);
    match FindPath(Child(Sub(t, D), d), v)
    case None =>
    case Some(q) => assert D + ([d] + q) == D + [d] + q;
  }

  /** A found path leads to a node holding the value. */
  lemma {:induction false} FindPathSound(t: Tree, v: int)
    requires FindPath(t, v).Some?
    ensures IsNodePath(t, FindPath(t, v).value)
    ensures Sub(t, FindPath(t, v).value).value == v
  {
    var p := FindPath(t, v).value;
    if t.value != v {
      var d := if t.value > v then Left else Right;
      FindPathSound(Child(t, d), v);
      assert p[1..] == FindPath(Child(t, d), v).value;
    }
  }

  /** On an ordered tree the lookup descent fails exactly when no node holds
      the value. */
  lemma {:induction false} FindPathComplete(t: Tree, v: int)
    requires Ordered(t)
    ensures FindPath(t, v).None? <==> !Contains(t, v)
  {
    match t
    case Leaf =>
    case Node(l, i, x, r) =>
      OrderedNode(t);
      if x == v {
        assert Elem(i, x) in InOrder(t);
      } else if x > v {
        FindPathComplete(l, v);
      } else {
        FindPathComplete(r, v);
      }
  }

  // ---------------------------------------------------------------------------
  // Insertion descent

  /** The insertion descent: left when the node's value is strictly greater,
      right otherwise, so equal values go right; ends at an empty link. */
  function DescentPath(t: Tree, v: int): (p: Path)
    ensures OnPath(t, p) && Sub(t, p) == Leaf
  {
    match t
    case Leaf => []
    case Node(l, _, x, r) =>
      if x > v then [Left] + DescentPath(l, v) else [Right] + DescentPath(r, v)
  }

  /** One step of the insertion descent below `D`, toward the child it picks. */
  lemma DescentStep(t: Tree, D: Path, v: int)
    requires IsNodePath(t, D) && D + DescentPath(Sub(t, D), v) == DescentPath(t, v)
    ensures var d := if Sub(t, D).value > v then Left else Right;
      OnPath(t, D + [d]) && Sub(t, D + [d]) == Child(Sub(t, D), d) &&
      (D + [d]) + DescentPath(Sub(t, D + [d]), v) == DescentPath(t, v) &&
      (D + [d])[..|D|] == D
  {
    var x := Sub(t, D);
    var d := if x.value > v then Left else Right;
    var c := Child(x, d);
    SubStep(t, D, d);
    var q := DescentPath(c, v);
    assert DescentPath(x, v) == [d] + q;
    assert (D + [d]) + q == D + ([d] + q);
  }

  /** `t` with a new leaf node hung at the end of the insertion descent. */
  function Attach(t: Tree, id: nat, v: int): Tree
  {
    Replace(t, DescentPath(t, v), Node(Leaf, id, v, Leaf))
  }

  /** On an ordered tree the insertion descent ends after every value that is
      at most `v` and before every value that is greater: the new value goes
      after all equal ones. */
  lemma {:induction false} DescentSplits(t: Tree, v: int)
    requires Ordered(t)
    ensures forall e :: e in LeftCtx(t, DescentPath(t, v)) ==> e.value <= v
    ensures forall e :: e in RightCtx(t, DescentPath(t, v)) ==> v < e.value
  {
    match t
    case Leaf =>
    case Node(l, i, x, r) =>
      OrderedNode(t);
      var p := DescentPath(t, v);
      if x > v {
        DescentSplits(l, v);
        assert p[1..] == DescentPath(l, v);
      } else {
        DescentSplits(r, v);
        assert p[1..] == DescentPath(r, v);
      }
  }

  /** Attaching adds exactly the new node, at the upper-bound position of
      `v` in the in-order sequence, and keeps the tree ordered. */
  lemma AttachFacts(t: Tree, id: nat, v: int)
    requires Ordered(t) && Unique(t) && id !in Ids(t)
    ensures var p := DescentPath(t, v);
      InOrder(Attach(t, id, v)) == LeftCtx(t, p) + [Elem(id, v)] + RightCtx(t, p) &&
      InOrder(t) == LeftCtx(t, p) + RightCtx(t, p)
    ensures Ordered(Attach(t, id, v))
    ensures Unique(Attach(t, id, v)) && Ids(Attach(t, id, v)) == Ids(t) + {id}
  {
    var p := DescentPath(t, v);
    AttachInOrder(t, id, v);
    DescentSplits(t, v);
    SortedSplit(LeftCtx(t, p), RightCtx(t, p));
    SortedJoin(LeftCtx(t, p), Elem(id, v), RightCtx(t, p));
    ReplaceIds(t, p, Node(Leaf, id, v, Leaf));
  }

  lemma AttachInOrder(t: Tree, id: nat, v: int)
    ensures var p := DescentPath(t, v);
      InOrder(Attach(t, id, v)) == LeftCtx(t, p) + [Elem(id, v)] + RightCtx(t, p) &&
      InOrder(t) == LeftCtx(t, p) + RightCtx(t, p)
  {
    var p := DescentPath(t, v);
    var s := Node(Leaf, id, v, Leaf);
    ReplaceInOrder(t, p, s);
    assert InOrder(s) == [Elem(id, v)];
    assert InOrder(Sub(t, p)) == [];
    assert LeftCtx(t, p) + [] + RightCtx(t, p) == LeftCtx(t, p) + RightCtx(t, p);
  }

  /** Every subtree of an ordered tree is ordered. */
  lemma OrderedSub(t: Tree, p: Path)
    requires Ordered(t) && OnPath(t, p)
    ensures Ordered(Sub(t, p))
  {
    InOrderSplit(t, p);
    var a, m, b := LeftCtx(t, p), InOrder(Sub(t, p)), RightCtx(t, p);
    SortedSplit(a + m, b);
    SortedSplit(a, m);
  }

  lemma SortedSplit(a: seq<Elem>, b: seq<Elem>)
    requires Sorted(a + b)
    ensures Sorted(a) && Sorted(b)
  {
    assert forall i :: 0 <= i < |a| ==> (a + b)[i] == a[i];
    assert forall i :: 0 <= i < |b| ==> (a + b)[|a| + i] == b[i];
  }

  // ---------------------------------------------------------------------------
  // Right spine (max)

  /** The last node of the right spine: the in-order maximum. */
  function Rightmost(t: Tree): (m: Tree)
    requires t.Node?
    ensures m.Node?
  {
    if t.right == Leaf then t else Rightmost(t.right)
  }

  /** The path to `Rightmost(t)`: right steps only. */
  function SpinePath(t: Tree): (p: Path)
    requires t.Node?
    ensures IsNodePath(t, p) && Sub(t, p) == Rightmost(t)
    ensures forall k :: 0 <= k < |p| ==> p[k] == Right
  {
    if t.right == Leaf then [] else [Right] + SpinePath(t.right)
  }

  /** The rightmost node holds the largest value of an ordered tree. */
  lemma {:induction false} RightmostMax(t: Tree)
    requires t.Node? && Ordered(t)
    ensures Elem(Rightmost(t).id, Rightmost(t).value) in InOrder(t)
    ensures forall e :: e in InOrder(t) ==> e.value <= Rightmost(t).value
  {
    OrderedNode(t);
    if t.right != Leaf {
      RightmostMax(t.right);
    }
  }

  /** `t` with its rightmost node, and that node's left subtree with it,
      replaced by an empty link. */
  function CutMax(t: Tree): Tree
    requires t.Node?
  {
    if t.right == Leaf then Leaf else Node(t.left, t.id, t.value, CutMax(t.right))
  }

  /** Cutting off the rightmost node is replacing it by an empty link. */
  lemma {:induction false} CutMaxReplace(t: Tree)
    requires t.Node?
    ensures CutMax(t) == Replace(t, SpinePath(t), Leaf)
  {
    if t.right != Leaf {
      CutMaxReplace(t.right);
      assert SpinePath(t)[1..] == SpinePath(t.right);
    }
  }

  /** The rightmost node is the last in-order entry; cutting it off drops it
      together with its left subtree, which sits just before it. */
  lemma {:induction false} CutMaxInOrder(t: Tree)
    requires t.Node?
    ensures var m := Rightmost(t);
      InOrder(t) == InOrder(CutMax(t)) + InOrder(m.left) + [Elem(m.id, m.value)]
  {
    if t.right != Leaf {
      CutMaxInOrder(t.right);
    }
  }

  lemma {:induction false} CutMaxIds(t: Tree)
    requires t.Node? && Unique(t)
    ensures Unique(CutMax(t))
    ensures Ids(CutMax(t)) == Ids(t) - Ids(Rightmost(t).left) - {Rightmost(t).id}
    ensures Rightmost(t).id in Ids(t) && Ids(Rightmost(t).left) <= Ids(t)
    ensures Rightmost(t).id !in Ids(Rightmost(t).left)
  {
    if t.right != Leaf {
      CutMaxIds(t.right);
    }
  }
}
