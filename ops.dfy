/**
 * What the public operations do to the tree shape, as pure functions, and
 * what they promise: `Insert` adds one node and splays it to the root,
 * `Remove` takes out the node `find` reaches (or reports that there is none,
 * or that the two-children branch dereferences a null pointer), and
 * `Traverse` reports values and depths in order until the callback says stop.
 */
module Operations {
  import opened Trees
  import opened Rotations
  import opened Search

  // ---------------------------------------------------------------------------
  // Insert

  /** The new node hangs at the end of the insertion descent and is then
      splayed to the root.  In an empty tree it simply becomes the root. */
  function InsertSpec(t: Tree, id: nat, v: int): Tree
  {
    AttachIsNodePath(t, id, v);
    Splay(Attach(t, id, v), DescentPath(t, v))
  }

  lemma AttachIsNodePath(t: Tree, id: nat, v: int)
    ensures IsNodePath(Attach(t, id, v), DescentPath(t, v))
    ensures Sub(Attach(t, id, v), DescentPath(t, v)) == Node(Leaf, id, v, Leaf)
  {
    ReplaceSub(t, DescentPath(t, v), Node(Leaf, id, v, Leaf));
  }

  /** Equal values may end up in a left subtree: inserting 1 twice leaves
      the first node, holding the same value, as the left child of the
      second.  The order the tree keeps is therefore the non-strict one. */
  lemma EqualValueLeft()
    ensures InsertSpec(InsertSpec(Leaf, 0, 1), 1, 1) == Node(Node(Leaf, 0, 1, Leaf), 1, 1, Leaf)
  {
    assert DescentPath(Node(Leaf, 0, 1, Leaf), 1) == [Right];
  }

  /** The new node is found where the insertion descent ended. */
  lemma AttachReaches(t: Tree, id: nat, v: int)
    requires Ordered(t) && Unique(t) && id !in Ids(t)
    ensures var a := Attach(t, id, v);
      Unique(a) && Ordered(a) && Ids(a) == Ids(t) + {id} &&
      IsNodePath(a, DescentPath(t, v)) && id in Ids(a) && PathTo(a, id) == DescentPath(t, v)
  {
    AttachFacts(t, id, v);
    AttachIsNodePath(t, id, v);
    PathToUnique(Attach(t, id, v), DescentPath(t, v));
  }

  /** After an insertion the new node is the root, the tree is still ordered
      with unique identities, and the in-order sequence is the old one with
      the new entry after every value at most `v` and before every greater
      one. */
  lemma InsertSpecFacts(t: Tree, id: nat, v: int)
    requires Ordered(t) && Unique(t) && id !in Ids(t)
    ensures var r := InsertSpec(t, id, v);
      r.Node? && r.id == id && r.value == v && Ordered(r) && Unique(r) && Ids(r) == Ids(t) + {id}
    ensures var r, p := InsertSpec(t, id, v), DescentPath(t, v);
      InOrder(t) == LeftCtx(t, p) + RightCtx(t, p) &&
      InOrder(r) == LeftCtx(t, p) + [Elem(id, v)] + RightCtx(t, p) &&
      (forall e :: e in LeftCtx(t, p) ==> e.value <= v) &&
      (forall e :: e in RightCtx(t, p) ==> v < e.value)
    ensures Contains(InsertSpec(t, id, v), v)
  {
    var a := Attach(t, id, v);
    var p := DescentPath(t, v);
    AttachIsNodePath(t, id, v);
    AttachFacts(t, id, v);
    DescentSplits(t, v);
    SplayFacts(a, p);
    var r := InsertSpec(t, id, v);
    assert InOrder(r) == InOrder(r.left) + [Elem(id, r.value)] + InOrder(r.right);
    assert Elem(id, r.value) in InOrder(r);
    ElemValue(r, id);
    assert Elem(id, v) in InOrder(a);
  }

  /** In a tree with unique identities an identity carries one value. */
  lemma ElemValue(t: Tree, id: nat)
    requires Unique(t)
    ensures forall x, y :: Elem(id, x) in InOrder(t) && Elem(id, y) in InOrder(t) ==> x == y
  {
    forall x, y | Elem(id, x) in InOrder(t) && Elem(id, y) in InOrder(t) ensures x == y {
      UniqueElems(t, id, x, y);
    }
  }

  lemma {:induction false} UniqueElems(t: Tree, id: nat, x: int, y: int)
    requires Unique(t) && Elem(id, x) in InOrder(t) && Elem(id, y) in InOrder(t)
    ensures x == y
  {
    match t
    case Node(l, i, z, r) =>
      if Elem(id, x) in InOrder(l) { ElemIds(l, Elem(id, x)); }
      if Elem(id, x) in InOrder(r) { ElemIds(r, Elem(id, x)); }
      if Elem(id, y) in InOrder(l) { ElemIds(l, Elem(id, y)); }
      if Elem(id, y) in InOrder(r) { ElemIds(r, Elem(id, y)); }
      if Elem(id, x) in InOrder(l) && Elem(id, y) in InOrder(l) {
        UniqueElems(l, id, x, y);
      } else if Elem(id, x) in InOrder(r) && Elem(id, y) in InOrder(r) {
        UniqueElems(r, id, x, y);
      }
  }

  lemma ElemIds(t: Tree, e: Elem)
    requires e in InOrder(t)
    ensures e.id in Ids(t)
  {
    IdsOfInOrder(t);
    var k :| 0 <= k < |InOrder(t)| && InOrder(t)[k] == e;
  }

  // ---------------------------------------------------------------------------
  // Remove

  /** `Remove`'s report: nothing found (`false`), node removed (`true`), or
      the two-children branch dereferenced a null pointer. */
  datatype Outcome = NotFound | Removed | Panicked

  /** `Remove` as written.  A node with an empty side is replaced by its other
      subtree, without splaying.  A node with two children is splayed to the
      root; the rightmost node of its left subtree is cut off its parent and
      takes the root's place with the root's two subtrees, its own old left
      subtree being dropped.  When that rightmost node is the left child
      itself, the cut empties the root's left link first and the write to the
      new left child's parent pointer goes through a null pointer. */
  function RemoveSpec(t: Tree, v: int): (Tree, Outcome)
  {
    match FindPath(t, v)
    case None => (t, NotFound)
    case Some(p) =>
      FindPathSound(t, v);
      var n := Sub(t, p);
      if n.left == Leaf then (Replace(t, p, n.right), Removed)
      else if n.right == Leaf then (Replace(t, p, n.left), Removed)
      else
        var t1 := Splay(t, p);
        // Only `t1.left.right == Leaf` is reachable on a tree with unique
        // identities: `SplayKeepsSides` keeps both children of the splayed root.
        if t1.Leaf? || t1.left.Leaf? || t1.left.right == Leaf then (t1, Panicked)
        else
          var m := Rightmost(t1.left);
          (Node(CutMax(t1.left), m.id, m.value, t1.right), Removed)
  }

  /** Removing a value that no node holds changes nothing and reports it. */
  lemma RemoveAbsent(t: Tree, v: int)
    requires Ordered(t)
    ensures RemoveSpec(t, v).1 == NotFound <==> !Contains(t, v)
    ensures RemoveSpec(t, v).1 == NotFound ==> RemoveSpec(t, v).0 == t
  {
    FindPathComplete(t, v);
  }

  /** Dropping a run from a sorted sequence keeps it sorted. */
  lemma SortedDrop(a: seq<Elem>, c: seq<Elem>, b: seq<Elem>)
    requires Sorted(a + c + b)
    ensures Sorted(a + b)
  {
    var s := a + c + b;
    forall i, j | 0 <= i < j < |a + b| ensures (a + b)[i].value <= (a + b)[j].value {
      var i' := if i < |a| then i else i + |c|;
      var j' := if j < |a| then j else j + |c|;
      assert (a + b)[i] == s[i'] && (a + b)[j] == s[j'];
    }
  }

  /** Every branch that completes leaves an ordered tree with unique
      identities.  It takes out the node holding `v` that the lookup descent
      reaches and, in the two-children branch, also the old left subtree of
      the node that replaces it (`lost`, empty in the other branches); the
      rest keeps its order. */
  lemma RemoveFacts(t: Tree, v: int)
    requires Ordered(t) && Unique(t) && RemoveSpec(t, v).1 == Removed
    ensures FindPath(t, v).Some? && IsNodePath(t, FindPath(t, v).value)
    ensures var r := RemoveSpec(t, v).0; var n := Sub(t, FindPath(t, v).value);
      Ordered(r) && Unique(r) && Ids(r) <= Ids(t) - {n.id} && n.value == v &&
      exists a, lost, c, b ::
        InOrder(t) == a + lost + c + [Elem(n.id, v)] + b && InOrder(r) == a + c + b &&
        lost == Lost(t, v)
  {
    var p := FindPath(t, v).value;
    FindPathSound(t, v);
    var n := Sub(t, p);
    if n.left == Leaf || n.right == Leaf {
      var a, b := SpliceChild(t, p);
      assert InOrder(t) == a + [] + [] + [Elem(n.id, v)] + b;
    } else {
      SplayFacts(t, p);
      SplayKeepsSides(t, p);
      var t1 := Splay(t, p);
      SpliceMax(t1);
      var M := Rightmost(t1.left);
      var r := Node(CutMax(t1.left), M.id, M.value, t1.right);
      var a, lost, c, b := InOrder(CutMax(t1.left)), InOrder(M.left), [Elem(M.id, M.value)], InOrder(t1.right);
      assert RemoveSpec(t, v).0 == r && Lost(t, v) == lost;
      assert InOrder(t) == a + lost + c + [Elem(n.id, v)] + b && InOrder(r) == a + c + b;
    }
  }

  /** A node with an empty side replaced by its other subtree: exactly that
      node leaves the in-order sequence. */
  lemma SpliceChild(t: Tree, p: Path) returns (a: seq<Elem>, b: seq<Elem>)
    requires Ordered(t) && Unique(t) && IsNodePath(t, p)
    requires Sub(t, p).left == Leaf || Sub(t, p).right == Leaf
    ensures var n := Sub(t, p);
      var r := Replace(t, p, if n.left == Leaf then n.right else n.left);
      Ordered(r) && Unique(r) && Ids(r) <= Ids(t) - {n.id} &&
      InOrder(t) == a + [Elem(n.id, n.value)] + b && InOrder(r) == a + b
  {
    a, b := SpliceChildInOrder(t, p);
    var n := Sub(t, p);
    SortedDrop(a, [Elem(n.id, n.value)], b);
    SpliceChildIds(t, p);
  }

  lemma SpliceChildInOrder(t: Tree, p: Path) returns (a: seq<Elem>, b: seq<Elem>)
    requires IsNodePath(t, p)
    requires Sub(t, p).left == Leaf || Sub(t, p).right == Leaf
    ensures var n := Sub(t, p);
      var r := Replace(t, p, if n.left == Leaf then n.right else n.left);
      InOrder(t) == a + [Elem(n.id, n.value)] + b && InOrder(r) == a + b
  {
    var n := Sub(t, p);
    var ch := if n.left == Leaf then n.right else n.left;
    var e := Elem(n.id, n.value);
    ReplaceInOrder(t, p, ch);
    var x, z := LeftCtx(t, p), RightCtx(t, p);
    if n.left == Leaf {
      a, b := x, InOrder(n.right) + z;
      assert InOrder(n) == [] + [e] + InOrder(n.right);
      Regroup(x, [], e, InOrder(n.right), z);
    } else {
      a, b := x + InOrder(n.left), z;
      assert InOrder(n) == InOrder(n.left) + [e] + [];
      Regroup(x, InOrder(n.left), e, [], z);
    }
  }

  /** Regrouping the in-order sequence around a node with an empty side. */
  lemma Regroup(x: seq<Elem>, l: seq<Elem>, e: Elem, r: seq<Elem>, z: seq<Elem>)
    requires l == [] || r == []
    ensures x + (l + [e] + r) + z == (x + l) + [e] + (r + z)
    ensures x + (if l == [] then r else l) + z == (x + l) + (r + z)
  {
  }

  lemma SpliceChildIds(t: Tree, p: Path)
    requires Unique(t) && IsNodePath(t, p)
    requires Sub(t, p).left == Leaf || Sub(t, p).right == Leaf
    ensures var n := Sub(t, p);
      var r := Replace(t, p, if n.left == Leaf then n.right else n.left);
      Unique(r) && Ids(r) <= Ids(t) - {n.id}
  {
    var n := Sub(t, p);
    var ch := if n.left == Leaf then n.right else n.left;
    SubIds(t, p);
    ReplaceIds(t, p, ch);
  }

  /** The two-children branch as written, on the splayed tree: the rightmost
      node `m` of the left subtree replaces the root; the root and `m`'s old
      left subtree leave the in-order sequence. */
  lemma SpliceMax(t1: Tree)
    requires Ordered(t1) && Unique(t1) && t1.Node? && t1.left.Node?
    ensures var L, R := t1.left, t1.right; var m := Rightmost(L);
      var r := Node(CutMax(L), m.id, m.value, R);
      Ordered(r) && Unique(r) && Ids(r) <= Ids(t1) - {t1.id} &&
      InOrder(t1) == InOrder(CutMax(L)) + InOrder(m.left) + [Elem(m.id, m.value)] +
                     [Elem(t1.id, t1.value)] + InOrder(R) &&
      InOrder(r) == InOrder(CutMax(L)) + [Elem(m.id, m.value)] + InOrder(R)
  {
    SpliceMaxInOrder(t1);
    SpliceMaxOrdered(t1);
    SpliceMaxIds(t1);
  }

  lemma SpliceMaxIds(t1: Tree)
    requires Unique(t1) && t1.Node? && t1.left.Node?
    ensures var L, R := t1.left, t1.right; var m := Rightmost(L);
      var r := Node(CutMax(L), m.id, m.value, R);
      Unique(r) && Ids(r) <= Ids(t1) - {t1.id}
  {
    CutMaxIds(t1.left);
  }

  lemma SpliceMaxOrdered(t1: Tree)
    requires Ordered(t1) && t1.Node? && t1.left.Node?
    ensures var L, R := t1.left, t1.right; var m := Rightmost(L);
      Ordered(Node(CutMax(L), m.id, m.value, R))
  {
    var L, R := t1.left, t1.right;
    var m := Rightmost(L);
    SpliceMaxInOrder(t1);
    SortedSkip(InOrder(CutMax(L)), InOrder(m.left), Elem(m.id, m.value), Elem(t1.id, t1.value), InOrder(R));
  }

  /** Dropping `lost` and `e` from a sorted sequence keeps it sorted. */
  lemma SortedSkip(a: seq<Elem>, lost: seq<Elem>, me: Elem, e: Elem, b: seq<Elem>)
    requires Sorted(a + lost + [me] + [e] + b)
    ensures Sorted(a + [me] + b)
  {
    var s := a + lost + [me] + [e] + b;
    var r := a + [me] + b;
    var k := |lost|;
    forall i, j | 0 <= i < j < |r| ensures r[i].value <= r[j].value {
      var i' := if i < |a| then i else if i == |a| then i + k else i + k + 1;
      var j' := if j < |a| then j else if j == |a| then j + k else j + k + 1;
      assert r[i] == s[i'] && r[j] == s[j'];
    }
  }

  lemma SpliceMaxInOrder(t1: Tree)
    requires t1.Node? && t1.left.Node?
    ensures var L, R := t1.left, t1.right; var m := Rightmost(L);
      var a, lost, b := InOrder(CutMax(L)), InOrder(m.left), InOrder(R);
      var me, e := Elem(m.id, m.value), Elem(t1.id, t1.value);
      InOrder(t1) == a + lost + [me] + [e] + b
  {
    CutMaxInOrder(t1.left);
  }

  /** Splaying a node with two children leaves it at the root with two
      children, holding the same value. */
  lemma SplayKeepsSides(t: Tree, p: Path)
    requires Unique(t) && IsNodePath(t, p)
    ensures var t1, n := Splay(t, p), Sub(t, p);
      t1.Node? && t1.id == n.id && t1.value == n.value &&
      (n.left.Node? ==> t1.left.Node?) && (n.right.Node? ==> t1.right.Node?)
  {
    var t1, n := Splay(t, p), Sub(t, p);
    var e := Elem(n.id, n.value);
    SplayRoot(t, p);
    var A, B := AroundNode(t, p);
    UniquePrefix(t, p, e);
    assert e !in InOrder(t1.left) by { if e in InOrder(t1.left) { ElemIds(t1.left, e); } }
    SplitUnique(InOrder(t1.left), e, InOrder(t1.right), A, B);
  }

  /** The in-order sequence around the node at `p`: its context and left
      subtree before it, its right subtree and context after it. */
  lemma AroundNode(t: Tree, p: Path) returns (A: seq<Elem>, B: seq<Elem>)
    requires IsNodePath(t, p)
    ensures var n := Sub(t, p);
      A == LeftCtx(t, p) + InOrder(n.left) && B == InOrder(n.right) + RightCtx(t, p) &&
      InOrder(t) == A + [Elem(n.id, n.value)] + B
  {
    var n := Sub(t, p);
    InOrderSplit(t, p);
    A, B := LeftCtx(t, p) + InOrder(n.left), InOrder(n.right) + RightCtx(t, p);
    assert InOrder(n) == InOrder(n.left) + [Elem(n.id, n.value)] + InOrder(n.right);
  }

  /** After splaying, the root is the splayed node, value included. */
  lemma SplayRoot(t: Tree, p: Path)
    requires Unique(t) && IsNodePath(t, p)
    ensures var t1, n := Splay(t, p), Sub(t, p);
      t1.Node? && t1.id == n.id && t1.value == n.value && Unique(t1) &&
      InOrder(t1) == InOrder(t) && Elem(n.id, n.value) in InOrder(t)
  {
    var t1, n := Splay(t, p), Sub(t, p);
    SplayFacts(t, p);
    InOrderSplit(t, p);
    assert Elem(n.id, n.value) in InOrder(n);
    assert Elem(t1.id, t1.value) in InOrder(t1);
    ElemValue(t1, n.id);
  }

  /** The node at a path occurs in the in-order sequence only once, so not
      before its own subtree's position. */
  lemma UniquePrefix(t: Tree, p: Path, e: Elem)
    requires Unique(t) && IsNodePath(t, p) && e == Elem(Sub(t, p).id, Sub(t, p).value)
    ensures e !in LeftCtx(t, p) + InOrder(Sub(t, p).left)
  {
    var n := Sub(t, p);
    SubIds(t, p);
    InOrderSplit(t, p);
    IdsOfInOrder(t);
    var s := InOrder(t);
    var k := |LeftCtx(t, p) + InOrder(n.left)|;
    assert s[k] == e;
    if e in LeftCtx(t, p) + InOrder(n.left) {
      var j :| 0 <= j < k && (LeftCtx(t, p) + InOrder(n.left))[j] == e;
      assert s[j] == e;
      UniqueIndices(t, j, k);
    }
  }

  /** Two positions of the in-order sequence of a tree with unique
      identities hold different identities. */
  lemma UniqueIndices(t: Tree, j: nat, k: nat)
    requires Unique(t) && j < k < |InOrder(t)|
    ensures InOrder(t)[j].id != InOrder(t)[k].id
  {
    UniqueInOrder(t);
  }

  lemma {:induction false} UniqueInOrder(t: Tree)
    requires Unique(t)
    ensures forall j, k :: 0 <= j < k < |InOrder(t)| ==> InOrder(t)[j].id != InOrder(t)[k].id
  {
    match t
    case Leaf =>
    case Node(l, i, x, r) =>
      UniqueInOrder(l);
      UniqueInOrder(r);
      var a, b := InOrder(l), InOrder(r);
      var s := InOrder(t);
      forall j, k | 0 <= j < k < |s| ensures s[j].id != s[k].id {
        if j < |a| { assert s[j] in a; ElemIds(l, s[j]); }
        if j == |a| || k == |a| { assert Elem(i, x) in s; }
        if k > |a| { assert s[k] == b[k - |a| - 1]; assert s[k] in b; ElemIds(r, s[k]); }
        if j > |a| { assert s[j] == b[j - |a| - 1]; }
      }
  }

  /** An entry that occurs in neither prefix splits two equal sequences at
      the same place. */
  lemma SplitUnique(A: seq<Elem>, e: Elem, B: seq<Elem>, A': seq<Elem>, B': seq<Elem>)
    requires A + [e] + B == A' + [e] + B' && e !in A && e !in A'
    ensures |A| == |A'| && |B| == |B'|
  {
    var s := A + [e] + B;
    assert forall k :: 0 <= k < |A| ==> s[k] == A[k];
    assert forall k :: 0 <= k < |A'| ==> s[k] == A'[k];
    assert s[|A|] == e && s[|A'|] == e;
  }

  /** The entries the two-children branch drops besides the removed one: the
      old left subtree of the rightmost node of the left subtree. */
  ghost function Lost(t: Tree, v: int): seq<Elem>
  {
    match FindPath(t, v)
    case None => []
    case Some(p) =>
      FindPathSound(t, v);
      var n := Sub(t, p);
      if n.left == Leaf || n.right == Leaf then []
      else
        var t1 := Splay(t, p);
        // `t1` has two children on a tree with unique identities (`SplayKeepsSides`).
        if t1.Leaf? || t1.left.Leaf? then [] else InOrder(Rightmost(t1.left).left)
  }
}
