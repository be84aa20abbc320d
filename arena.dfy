/**
 * The node records of the mutable tree and the relation between them and a
 * tree shape: `Linked(t, m, parent)` says that the records in `m` realise
 * `t`, hanging below `parent`, with every child's parent pointer pointing
 * back at its parent.
 */
module Arena {
  import opened Trees

  /** The null pointer.  Node identities are natural numbers. */
  const Nil: int := -1

  /** A `splayNode`: its parent, left and right pointers and its value. */
  datatype NodeRec = NodeRec(parent: int, left: int, right: int, value: int)

  /** `k.parent = p` on the record of `k`. */
  function SetParent(m: map<int, NodeRec>, k: int, p: int): (m': map<int, NodeRec>)
    requires k in m
    ensures m'.Keys == m.Keys && m'[k].parent == p
  {
    m[k := m[k].(parent := p)]
  }

  /** `k.left = c` on the record of `k`. */
  function SetLeft(m: map<int, NodeRec>, k: int, c: int): (m': map<int, NodeRec>)
    requires k in m
    ensures m'.Keys == m.Keys && m'[k].left == c
  {
    m[k := m[k].(left := c)]
  }

  /** `k.right = c` on the record of `k`. */
  function SetRight(m: map<int, NodeRec>, k: int, c: int): (m': map<int, NodeRec>)
    requires k in m
    ensures m'.Keys == m.Keys && m'[k].right == c
  {
    m[k := m[k].(right := c)]
  }

  /** `k.parent = p`, guarded by `k != nil`. */
  function SetParentIf(m: map<int, NodeRec>, k: int, p: int): (m': map<int, NodeRec>)
    requires k != Nil ==> k in m
    ensures m'.Keys == m.Keys && (k != Nil ==> m'[k].parent == p)
  {
    if k != Nil then SetParent(m, k, p) else m
  }

  function RootPtr(t: Tree): int
  {
    if t.Leaf? then Nil else t.id
  }

  /** The records in `m` realise `t`, whose root's parent pointer is
      `parent`: each node's children are the roots of its subtrees, and each
      non-empty subtree's root points back at the node. */
  ghost predicate Linked(t: Tree, m: map<int, NodeRec>, parent: int)
  {
    match t
    case Leaf => true
    case Node(l, i, x, r) =>
      i in m && m[i] == NodeRec(parent, RootPtr(l), RootPtr(r), x) &&
      Linked(l, m, i) && Linked(r, m, i)
  }

  /** `m1` and `m2` hold the same records for `ids`. */
  ghost predicate Agree(m1: map<int, NodeRec>, m2: map<int, NodeRec>, ids: set<nat>)
  {
    forall i :: i in ids ==> i in m1 && i in m2 && m1[i] == m2[i]
  }

  /** The parent pointer expected of the node at the end of `p`. */
  function ParentOf(t: Tree, p: Path, parent: int): int
    requires OnPath(t, p)
  {
    if p == [] then parent else ParentOf(Child(t, p[0]), p[1..], t.id)
  }

  lemma {:induction false} ParentOfSub(t: Tree, p: Path, parent: int)
    requires OnPath(t, p) && p != []
    ensures OnPath(t, p[..|p| - 1]) && Sub(t, p[..|p| - 1]).Node?
    ensures ParentOf(t, p, parent) == Sub(t, p[..|p| - 1]).id
    ensures Sub(t, p) == Child(Sub(t, p[..|p| - 1]), p[|p| - 1])
  {
    var c := Child(t, p[0]);
    if |p| == 1 {
      assert p[1..] == [];
    } else {
      ParentOfSub(c, p[1..], t.id);
      assert p[1..][..|p| - 2] == p[..|p| - 1][1..];
    }
  }

  lemma {:induction false} LinkedKeys(t: Tree, m: map<int, NodeRec>, parent: int)
    requires Linked(t, m, parent)
    ensures forall i :: i in Ids(t) ==> i in m
  {
    if t.Node? {
      LinkedKeys(t.left, m, t.id);
      LinkedKeys(t.right, m, t.id);
    }
  }

  /** A subtree is realised too, below the parent its path dictates. */
  lemma {:induction false} LinkedSub(t: Tree, m: map<int, NodeRec>, parent: int, p: Path)
    requires Linked(t, m, parent) && OnPath(t, p)
    ensures Linked(Sub(t, p), m, ParentOf(t, p, parent))
  {
    if p != [] {
      LinkedSub(Child(t, p[0]), m, t.id, p[1..]);
    }
  }

  /** Records outside a subtree do not matter to it. */
  lemma {:induction false} LinkedFrame(t: Tree, m1: map<int, NodeRec>, m2: map<int, NodeRec>, parent: int)
    requires Linked(t, m1, parent) && Agree(m1, m2, Ids(t))
    ensures Linked(t, m2, parent)
  {
    if t.Node? {
      LinkedFrame(t.left, m1, m2, t.id);
      LinkedFrame(t.right, m1, m2, t.id);
    }
  }

  /** Changing only the root's parent pointer hangs a subtree elsewhere. */
  lemma LinkedReparent(t: Tree, m1: map<int, NodeRec>, m2: map<int, NodeRec>, parent: int, parent': int)
    requires t.Node? && Unique(t) && Linked(t, m1, parent)
    requires Agree(m1, m2, Ids(t) - {t.id})
    requires t.id in m2 && m2[t.id] == m1[t.id].(parent := parent')
    ensures Linked(t, m2, parent')
  {
    LinkedFrame(t.left, m1, m2, t.id);
    LinkedFrame(t.right, m1, m2, t.id);
  }

  /** Replacing a subtree by another with the same root, realised below the
      same parent by new records that leave the rest of the tree alone,
      realises the whole new tree. */
  lemma {:induction false} LinkedReplace(t: Tree, m1: map<int, NodeRec>, m2: map<int, NodeRec>,
                                         parent: int, p: Path, s: Tree)
    requires Unique(t) && Linked(t, m1, parent) && OnPath(t, p)
    requires Agree(m1, m2, Ids(t) - Ids(Sub(t, p)))
    requires Linked(s, m2, ParentOf(t, p, parent))
    requires RootPtr(s) == RootPtr(Sub(t, p))
    ensures Linked(Replace(t, p, s), m2, parent)
    ensures RootPtr(Replace(t, p, s)) == RootPtr(t)
  {
    if p != [] {
      var d := p[0];
      var c := Child(t, d);
      var o := Child(t, if d == Left then Right else Left);
      SubIds(c, p[1..]);
      LinkedReplace(c, m1, m2, t.id, p[1..], s);
      LinkedFrame(o, m1, m2, t.id);
    }
  }

  /** Replacing the child on side `d` of the node at `q` by `s`, where the
      new records differ from the old only inside the old child, in the
      node's child pointer on that side, and for the identities of `s`. */
  lemma LinkedSwapChild(t: Tree, m1: map<int, NodeRec>, m2: map<int, NodeRec>, q: Path, d: Dir, s: Tree)
    requires Unique(t) && Linked(t, m1, Nil) && IsNodePath(t, q)
    requires Linked(s, m2, Sub(t, q).id)
    requires var n := Sub(t, q);
      n.id in m1 && n.id in m2 &&
      m2[n.id] == (if d == Left then m1[n.id].(left := RootPtr(s)) else m1[n.id].(right := RootPtr(s)))
    requires Agree(m1, m2, Ids(t) - Ids(Child(Sub(t, q), d)) - {Sub(t, q).id})
    ensures OnPath(t, q + [d]) && Linked(Replace(t, q + [d], s), m2, Nil)
  {
    var n := Sub(t, q);
    var c := Child(n, d);
    var o := Child(n, if d == Left then Right else Left);
    var n' := WithChild(n, d, s);
    LinkedSub(t, m1, Nil, q);
    SubIds(t, q);
    assert o.Node? ==> o.id in Ids(n);
    LinkedFrame(o, m1, m2, n.id);
    LinkedReplace(t, m1, m2, Nil, q, n');
    ReplaceAppend(t, q, [d], s);
    assert [d][1..] == [];
  }
}
