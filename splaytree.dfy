/**
 * The splay tree itself.  The heap of `splayNode` objects is an arena: a map
 * from node identities to records holding the parent, left and right
 * pointers and the value, with `Nil` as the null pointer.  A ghost `shape`
 * mirrors the tree reachable from `root`; `Valid()` ties the two together
 * and every operation is specified by what it does to `shape`.
 */
module SplayTrees {
  import opened Trees
  import opened Rotations
  import opened Search
  import opened Arena
  import opened SplaySteps
  import opened Operations
  import opened Traversal

  /** How the two children of a node are told apart by pointer comparison. */
  lemma ChildSide(t: Tree, m: map<int, NodeRec>, q: Path, d: Dir)
    requires Unique(t) && Linked(t, m, Nil) && IsNodePath(t, q)
    requires Child(Sub(t, q), d).Node?
    ensures var p := Sub(t, q); var n := Child(p, d).id;
      p.id in m &&
      (m[p.id].left == n <==> d == Left) && (m[p.id].right == n <==> d == Right)
  {
    var p := Sub(t, q);
    LinkedSub(t, m, Nil, q);
    SubIds(t, q);
  }

  /** After the pointer writes of `rotateLeft` the records realise the
      rotated subtree below the old parent. */
  lemma RotLLinked(s: Tree, m: map<int, NodeRec>, m2: map<int, NodeRec>, pp: int)
    requires s.Node? && s.right.Node? && Unique(s) && Linked(s, m, pp)
    requires var t := s.right;
      s.id in m && t.id in m &&
      s.id in m2 && m2[s.id] == m[s.id].(parent := t.id, right := RootPtr(t.left)) &&
      t.id in m2 && m2[t.id] == m[t.id].(parent := pp, left := s.id)
    requires Agree(m, m2, Ids(s.left) + Ids(s.right.right))
    requires var b := s.right.left;
      b.Node? ==> b.id in m && b.id in m2 && m2[b.id] == m[b.id].(parent := s.id) && Agree(m, m2, Ids(b) - {b.id})
    ensures Linked(RotL(s), m2, pp)
  {
    var t := s.right;
    LinkedFrame(s.left, m, m2, s.id);
    LinkedFrame(t.right, m, m2, t.id);
    if t.left.Node? {
      LinkedReparent(t.left, m, m2, t.id, s.id);
    }
  }

  /** The mirror image of `RotLLinked`. */
  lemma RotRLinked(s: Tree, m: map<int, NodeRec>, m2: map<int, NodeRec>, pp: int)
    requires s.Node? && s.left.Node? && Unique(s) && Linked(s, m, pp)
    requires var t := s.left;
      s.id in m && t.id in m &&
      s.id in m2 && m2[s.id] == m[s.id].(parent := t.id, left := RootPtr(t.right)) &&
      t.id in m2 && m2[t.id] == m[t.id].(parent := pp, right := s.id)
    requires Agree(m, m2, Ids(s.right) + Ids(s.left.left))
    requires var b := s.left.right;
      b.Node? ==> b.id in m && b.id in m2 && m2[b.id] == m[b.id].(parent := s.id) && Agree(m, m2, Ids(b) - {b.id})
    ensures Linked(RotR(s), m2, pp)
  {
    var t := s.left;
    LinkedFrame(s.right, m, m2, s.id);
    LinkedFrame(t.left, m, m2, t.id);
    if t.right.Node? {
      LinkedReparent(t.right, m, m2, t.id, s.id);
    }
  }

  /** Hanging a rewired subtree back into its parent's child slot (the job
      of `correctParent` and `transplant`) realises the whole new tree. */
  lemma Relink(t: Tree, m0: map<int, NodeRec>, m2: map<int, NodeRec>, m3: map<int, NodeRec>,
               p: Path, s: Tree)
    requires Unique(t) && Linked(t, m0, Nil) && OnPath(t, p) && p != []
    requires Ids(s) <= Ids(Sub(t, p))
    requires Linked(s, m2, ParentOf(t, p, Nil))
    requires Agree(m0, m2, Ids(t) - Ids(Sub(t, p)))
    requires var q := ParentOf(t, p, Nil);
      q in m2 && m3 == if p[|p| - 1] == Left then SetLeft(m2, q, RootPtr(s)) else SetRight(m2, q, RootPtr(s))
    ensures Linked(Replace(t, p, s), m3, Nil)
  {
    var q, d := p[..|p| - 1], p[|p| - 1];
    ParentOfSub(t, p, Nil);
    SubIds(t, p);
    SubIds(t, q);
    var n := Sub(t, q);
    assert Ids(Child(n, d)) <= Ids(n) && n.id !in Ids(Child(n, d)) by {
      SubIds(n, [d]);
      assert [d][1..] == [];
    }
    LinkedSub(t, m0, Nil, q);
    assert Agree(m2, m3, Ids(s)) by {
      forall i | i in Ids(s) ensures i in m2 && i in m3 && m2[i] == m3[i] {
        assert i != n.id;
        LinkedKeys(s, m2, n.id);
      }
    }
    LinkedFrame(s, m2, m3, n.id);
    assert q + [d] == p;
    assert Sub(t, p) == Child(n, d);
    assert n.id in Ids(t) - Ids(Sub(t, p));
    assert m2[n.id] == m0[n.id];
    assert m3[n.id] == (if d == Left then m0[n.id].(left := RootPtr(s)) else m0[n.id].(right := RootPtr(s)));
    assert Agree(m0, m3, Ids(t) - Ids(Child(n, d)) - {n.id}) by {
      forall i | i in Ids(t) - Ids(Child(n, d)) - {n.id} ensures i in m0 && i in m3 && m0[i] == m3[i] {
        assert i in Ids(t) - Ids(Sub(t, p)) && i != n.id;
      }
    }
    LinkedSwapChild(t, m0, m3, q, d, s);
  }

  /** What `rotateLeft` reads before it writes: `n`'s right child, its left
      subtree and `n`'s parent are distinct nodes present in the arena. */
  lemma RotLPrepare(t: Tree, m: map<int, NodeRec>, n: nat)
    requires Unique(t) && Linked(t, m, Nil) && n in Ids(t) && n in m && m[n].right != Nil
    ensures IsNodePath(t, PathTo(t, n))
    ensures var p := PathTo(t, n); var s := Sub(t, p);
      s.id == n && s.right.Node? && m[n].right == s.right.id && s.right.id in m &&
      m[n].parent == ParentOf(t, p, Nil) &&
      m[s.right.id].left == RootPtr(s.right.left) &&
      (s.right.left.Node? ==> s.right.left.id in m) &&
      (m[n].parent != Nil ==> m[n].parent in m) && m[n].parent !in Ids(s) &&
      Unique(s) && s.right.id != n &&
      (s.right.left.Node? ==> s.right.left.id != n && s.right.left.id != s.right.id)
  {
    var p := PathTo(t, n);
    PathToSub(t, n);
    LinkedSub(t, m, Nil, p);
    SubIds(t, p);
    var s := Sub(t, p);
    assert Unique(s.right);
    assert Linked(s.right, m, n);
    LinkedKeys(s.right, m, n);
    if p != [] {
      ParentOfSub(t, p, Nil);
      var g, d := Sub(t, p[..|p| - 1]), p[|p| - 1];
      SubIds(t, p[..|p| - 1]);
      LinkedKeys(t, m, Nil);
      SubIds(g, [d]);
      assert [d][1..] == [];
    }
  }

  lemma RotRPrepare(t: Tree, m: map<int, NodeRec>, n: nat)
    requires Unique(t) && Linked(t, m, Nil) && n in Ids(t) && n in m && m[n].left != Nil
    ensures IsNodePath(t, PathTo(t, n))
    ensures var p := PathTo(t, n); var s := Sub(t, p);
      s.id == n && s.left.Node? && m[n].left == s.left.id && s.left.id in m &&
      m[n].parent == ParentOf(t, p, Nil) &&
      m[s.left.id].right == RootPtr(s.left.right) &&
      (s.left.right.Node? ==> s.left.right.id in m) &&
      (m[n].parent != Nil ==> m[n].parent in m) && m[n].parent !in Ids(s) &&
      Unique(s) && s.left.id != n &&
      (s.left.right.Node? ==> s.left.right.id != n && s.left.right.id != s.left.id)
  {
    var p := PathTo(t, n);
    PathToSub(t, n);
    LinkedSub(t, m, Nil, p);
    SubIds(t, p);
    var s := Sub(t, p);
    assert Unique(s.left);
    assert Linked(s.left, m, n);
    LinkedKeys(s.left, m, n);
    if p != [] {
      ParentOfSub(t, p, Nil);
      var g, d := Sub(t, p[..|p| - 1]), p[|p| - 1];
      SubIds(t, p[..|p| - 1]);
      LinkedKeys(t, m, Nil);
      SubIds(g, [d]);
      assert [d][1..] == [];
    }
  }

  /** The pointer writes of `rotateLeft` at `n`, whose right child is `u`
      and whose right child's left child is `b`, record by record. */
  lemma RotLWrites(m0: map<int, NodeRec>, m2: map<int, NodeRec>, n: int, u: int, b: int)
    requires n in m0 && u in m0 && (b != Nil ==> b in m0) && n != u && (b != Nil ==> b != n && b != u)
    requires m2 == SetParent(SetLeft(SetParentIf(SetRight(SetParent(m0, u, m0[n].parent), n, b), b, n), u, n), n, u)
    ensures m2.Keys == m0.Keys
    ensures m2[n] == m0[n].(parent := u, right := b) && m2[u] == m0[u].(parent := m0[n].parent, left := n)
    ensures b != Nil ==> m2[b] == m0[b].(parent := n)
    ensures forall i :: i in m0 && i != n && i != u && i != b ==> i in m2 && m2[i] == m0[i]
  {
  }

  /** The pointer writes of `rotateRight`, the mirror image of `RotLWrites`. */
  lemma RotRWrites(m0: map<int, NodeRec>, m2: map<int, NodeRec>, n: int, u: int, b: int)
    requires n in m0 && u in m0 && (b != Nil ==> b in m0) && n != u && (b != Nil ==> b != n && b != u)
    requires m2 == SetParent(SetRight(SetParentIf(SetLeft(SetParent(m0, u, m0[n].parent), n, b), b, n), u, n), n, u)
    ensures m2.Keys == m0.Keys
    ensures m2[n] == m0[n].(parent := u, left := b) && m2[u] == m0[u].(parent := m0[n].parent, right := n)
    ensures b != Nil ==> m2[b] == m0[b].(parent := n)
    ensures forall i :: i in m0 && i != n && i != u && i != b ==> i in m2 && m2[i] == m0[i]
  {
  }

  /** The records after the pointer writes of `rotateLeft` (before
      `correctParent`) realise the rotated subtree and leave everything
      outside it alone. */
  lemma RotLConclude(t: Tree, m0: map<int, NodeRec>, m2: map<int, NodeRec>, p: Path)
    requires Unique(t) && Linked(t, m0, Nil) && IsNodePath(t, p) && Sub(t, p).right.Node?
    requires var s := Sub(t, p); var n, r := s.id, s.right.id; var b := RootPtr(s.right.left);
      n in m0 && r in m0 && (b != Nil ==> b in m0) && m2.Keys == m0.Keys &&
      m2[n] == m0[n].(parent := r, right := b) && m2[r] == m0[r].(parent := m0[n].parent, left := n) &&
      (b != Nil ==> m2[b] == m0[b].(parent := n)) &&
      (forall i :: i in m0 && i != n && i != r && i != b ==> i in m2 && m2[i] == m0[i])
    ensures var s := Sub(t, p);
      Linked(RotL(s), m2, ParentOf(t, p, Nil)) && Agree(m0, m2, Ids(t) - Ids(s)) &&
      m2.Keys == m0.Keys
  {
    var s := Sub(t, p);
    LinkedSub(t, m0, Nil, p);
    SubIds(t, p);
    LinkedKeys(t, m0, Nil);
    var n, r, b := s.id, s.right.id, RootPtr(s.right.left);
    assert Ids(s.left) + Ids(s.right.right) <= Ids(s);
    RotLLinked(s, m0, m2, ParentOf(t, p, Nil));
  }

  lemma RotRConclude(t: Tree, m0: map<int, NodeRec>, m2: map<int, NodeRec>, p: Path)
    requires Unique(t) && Linked(t, m0, Nil) && IsNodePath(t, p) && Sub(t, p).left.Node?
    requires var s := Sub(t, p); var n, l := s.id, s.left.id; var b := RootPtr(s.left.right);
      n in m0 && l in m0 && (b != Nil ==> b in m0) && m2.Keys == m0.Keys &&
      m2[n] == m0[n].(parent := l, left := b) && m2[l] == m0[l].(parent := m0[n].parent, right := n) &&
      (b != Nil ==> m2[b] == m0[b].(parent := n)) &&
      (forall i :: i in m0 && i != n && i != l && i != b ==> i in m2 && m2[i] == m0[i])
    ensures var s := Sub(t, p);
      Linked(RotR(s), m2, ParentOf(t, p, Nil)) && Agree(m0, m2, Ids(t) - Ids(s)) &&
      m2.Keys == m0.Keys
  {
    var s := Sub(t, p);
    LinkedSub(t, m0, Nil, p);
    SubIds(t, p);
    LinkedKeys(t, m0, Nil);
    var n, l, b := s.id, s.left.id, RootPtr(s.left.right);
    assert Ids(s.right) + Ids(s.left.left) <= Ids(s);
    RotRLinked(s, m0, m2, ParentOf(t, p, Nil));
  }

  /** Everything `rotateLeft` leaves behind, from the records before it:
      the writes of the rotation itself and of `correctParent` realise the
      tree with the subtree at `n` rotated. */
  lemma RotLInstall(t: Tree, m0: map<int, NodeRec>, m2: map<int, NodeRec>, m3: map<int, NodeRec>,
                     root3: int, n: nat)
    requires Unique(t) && Linked(t, m0, Nil) && Ordered(t) && n in Ids(t) && n in m0 && m0[n].right != Nil
    requires var u := m0[n].right; u in m0 && var b := m0[u].left;
      (b != Nil ==> b in m0) &&
      m2 == SetParent(SetLeft(SetParentIf(SetRight(SetParent(m0, u, m0[n].parent), n, b), b, n), u, n), n, u)
    requires var u, q := m0[n].right, m0[n].parent;
      (q == Nil ==> root3 == u && m3 == m2) &&
      (q != Nil ==>
        root3 == RootPtr(t) && q in m2 &&
        m3 == if n == m2[q].left then SetLeft(m2, q, u) else SetRight(m2, q, u))
    ensures IsNodePath(t, PathTo(t, n)) && Sub(t, PathTo(t, n)).right.Node?
    ensures var p := PathTo(t, n); var t' := Replace(t, p, RotL(Sub(t, p)));
      Unique(t') && Ordered(t') && Linked(t', m3, Nil) && root3 == RootPtr(t') && m3.Keys == m0.Keys
  {
    RotLPrepare(t, m0, n);
    var p := PathTo(t, n);
    var s := Sub(t, p);
    RotLWrites(m0, m2, n, s.right.id, RootPtr(s.right.left));
    RotLConclude(t, m0, m2, p);
    RotLFacts(s);
    Install(t, m0, m2, m3, root3, p, RotL(s));
  }

  /** Everything `rotateRight` leaves behind, from the records before it:
      the writes of the rotation itself and of `correctParent` realise the
      tree with the subtree at `n` rotated. */
  lemma RotRInstall(t: Tree, m0: map<int, NodeRec>, m2: map<int, NodeRec>, m3: map<int, NodeRec>,
                     root3: int, n: nat)
    requires Unique(t) && Linked(t, m0, Nil) && Ordered(t) && n in Ids(t) && n in m0 && m0[n].left != Nil
    requires var u := m0[n].left; u in m0 && var b := m0[u].right;
      (b != Nil ==> b in m0) &&
      m2 == SetParent(SetRight(SetParentIf(SetLeft(SetParent(m0, u, m0[n].parent), n, b), b, n), u, n), n, u)
    requires var u, q := m0[n].left, m0[n].parent;
      (q == Nil ==> root3 == u && m3 == m2) &&
      (q != Nil ==>
        root3 == RootPtr(t) && q in m2 &&
        m3 == if n == m2[q].left then SetLeft(m2, q, u) else SetRight(m2, q, u))
    ensures IsNodePath(t, PathTo(t, n)) && Sub(t, PathTo(t, n)).left.Node?
    ensures var p := PathTo(t, n); var t' := Replace(t, p, RotR(Sub(t, p)));
      Unique(t') && Ordered(t') && Linked(t', m3, Nil) && root3 == RootPtr(t') && m3.Keys == m0.Keys
  {
    RotRPrepare(t, m0, n);
    var p := PathTo(t, n);
    var s := Sub(t, p);
    RotRWrites(m0, m2, n, s.left.id, RootPtr(s.left.right));
    RotRConclude(t, m0, m2, p);
    RotRFacts(s);
    Install(t, m0, m2, m3, root3, p, RotR(s));
  }

  /** After `correctParent` the rotated subtree is back in its parent's slot
      (or is the whole tree), and the tree is valid again. */
  lemma Install(t: Tree, m0: map<int, NodeRec>, m2: map<int, NodeRec>, m3: map<int, NodeRec>,
                root3: int, p: Path, s': Tree)
    requires Unique(t) && Linked(t, m0, Nil) && Ordered(t) && IsNodePath(t, p)
    requires s'.Node? && Unique(s') && Ids(s') == Ids(Sub(t, p)) && InOrder(s') == InOrder(Sub(t, p))
    requires Linked(s', m2, ParentOf(t, p, Nil)) && Agree(m0, m2, Ids(t) - Ids(Sub(t, p)))
    requires m2.Keys == m0.Keys
    requires ParentOf(t, p, Nil) == Nil ==> root3 == s'.id && m3 == m2
    requires ParentOf(t, p, Nil) != Nil ==>
      var q := ParentOf(t, p, Nil);
      root3 == RootPtr(t) && q in m2 &&
      m3 == if Sub(t, p).id == m2[q].left then SetLeft(m2, q, s'.id) else SetRight(m2, q, s'.id)
    ensures Unique(Replace(t, p, s')) && Ordered(Replace(t, p, s'))
    ensures Linked(Replace(t, p, s'), m3, Nil) && root3 == RootPtr(Replace(t, p, s'))
    ensures m3.Keys == m0.Keys
  {
    ReplaceSame(t, p, s');
    if p == [] {
      assert ParentOf(t, p, Nil) == Nil;
    } else {
      ParentOfSub(t, p, Nil);
      InstallChild(t, m0, m2, m3, p, s');
    }
  }

  /** Replacing a subtree by a reshaped one with the same in-order sequence
      keeps the whole in-order sequence and the uniqueness of identities. */
  lemma ReplaceSame(t: Tree, p: Path, s': Tree)
    requires Unique(t) && OnPath(t, p)
    requires Unique(s') && Ids(s') == Ids(Sub(t, p)) && InOrder(s') == InOrder(Sub(t, p))
    ensures Unique(Replace(t, p, s')) && InOrder(Replace(t, p, s')) == InOrder(t)
    ensures Ids(Replace(t, p, s')) == Ids(t)
  {
    ReplaceInOrder(t, p, s');
    SubIds(t, p);
    ReplaceIds(t, p, s');
  }

  /** The `correctParent` write into the parent's child slot, seen as the
      side the path takes. */
  lemma InstallChild(t: Tree, m0: map<int, NodeRec>, m2: map<int, NodeRec>, m3: map<int, NodeRec>,
                     p: Path, s': Tree)
    requires Unique(t) && Linked(t, m0, Nil) && IsNodePath(t, p) && p != []
    requires s'.Node? && Ids(s') == Ids(Sub(t, p))
    requires Linked(s', m2, ParentOf(t, p, Nil)) && Agree(m0, m2, Ids(t) - Ids(Sub(t, p)))
    requires var q := ParentOf(t, p, Nil);
      q in m2 &&
      m3 == if Sub(t, p).id == m2[q].left then SetLeft(m2, q, s'.id) else SetRight(m2, q, s'.id)
    ensures Linked(Replace(t, p, s'), m3, Nil) && RootPtr(Replace(t, p, s')) == RootPtr(t)
    ensures m3.Keys == m2.Keys
  {
    ParentOfSub(t, p, Nil);
    var q, d := p[..|p| - 1], p[|p| - 1];
    var g := Sub(t, q);
    SubIds(t, q);
    assert g.id in Ids(t) && g.id !in Ids(Sub(t, p)) by {
      SubIds(g, [d]);
      assert [d][1..] == [];
    }
    ChildSide(t, m0, q, d);
    assert m2[g.id] == m0[g.id];
    assert m3 == if d == Left then SetLeft(m2, g.id, RootPtr(s')) else SetRight(m2, g.id, RootPtr(s'));
    Relink(t, m0, m2, m3, p, s');
  }

  /** One step of the insertion descent read off the records: the node at
      `D` is `t`, and the pointer the comparison follows is the root of the
      subtree one step further along the descent. */
  lemma DescentRead(t: Tree, m: map<int, NodeRec>, D: Path, v: int)
    requires Linked(t, m, Nil) && IsNodePath(t, D)
    requires D + DescentPath(Sub(t, D), v) == DescentPath(t, v)
    ensures var x := Sub(t, D); var d := if x.value > v then Left else Right;
      x.id in m && m[x.id].value == x.value &&
      OnPath(t, D + [d]) && (D + [d])[..|D|] == D &&
      RootPtr(Sub(t, D + [d])) == (if d == Left then m[x.id].left else m[x.id].right) &&
      (D + [d]) + DescentPath(Sub(t, D + [d]), v) == DescentPath(t, v) &&
      Size(Sub(t, D + [d])) < Size(x)
  {
    LinkedSub(t, m, Nil, D);
    DescentStep(t, D, v);
  }

  /** The insertion descent has ended at an empty link: the last node it
      visited is the parent-to-be, and its slot on the last side is empty. */
  lemma DescentEnd(t: Tree, m: map<int, NodeRec>, D: Path, v: int, p: int, left: bool)
    requires Unique(t) && Linked(t, m, Nil) && OnPath(t, D) && RootPtr(Sub(t, D)) == Nil && D != []
    requires D + DescentPath(Sub(t, D), v) == DescentPath(t, v)
    requires IsNodePath(t, D[..|D| - 1]) && p == Sub(t, D[..|D| - 1]).id && left == (D[|D| - 1] == Left)
    ensures var D := DescentPath(t, v);
      D != [] && IsNodePath(t, D[..|D| - 1]) && p == Sub(t, D[..|D| - 1]).id &&
      left == (D[|D| - 1] == Left) && p in m &&
      (if left then m[p].left else m[p].right) == Nil
  {
    assert D == DescentPath(t, v) by {
      assert Sub(t, D) == Leaf;
      assert D + [] == D;
    }
    At(t, m, D[..|D| - 1]);
    ParentOfSub(t, D, Nil);
  }

  /** The record of the node at the end of a node path. */
  lemma At(t: Tree, m: map<int, NodeRec>, q: Path)
    requires Unique(t) && Linked(t, m, Nil) && IsNodePath(t, q)
    ensures var x := Sub(t, q);
      x.id in Ids(t) && PathTo(t, x.id) == q && x.id in m &&
      m[x.id] == NodeRec(ParentOf(t, q, Nil), RootPtr(x.left), RootPtr(x.right), x.value)
  {
    PathToUnique(t, q);
    LinkedSub(t, m, Nil, q);
  }

  /** What the parent pointer of a node below the root leads to: its
      parent's node, whose child pointer on the path's side points back, and
      which is the root exactly when the node is a child of the root. */
  lemma ParentView(t: Tree, m: map<int, NodeRec>, q: Path)
    requires Unique(t) && Linked(t, m, Nil) && IsNodePath(t, q) && q != []
    ensures IsNodePath(t, q[..|q| - 1])
    ensures var q' := q[..|q| - 1]; var y := Sub(t, q'); var x := Sub(t, q).id;
      x in m && m[x].parent == y.id &&
      y.id in Ids(t) && PathTo(t, y.id) == q' && y.id in m &&
      (m[y.id].left == x <==> q[|q| - 1] == Left) && (m[y.id].right == x <==> q[|q| - 1] == Right) &&
      (y.id == RootPtr(t) <==> |q| == 1)
  {
    var q' := q[..|q| - 1];
    ParentOfSub(t, q, Nil);
    At(t, m, q);
    At(t, m, q');
    ChildSide(t, m, q', q[|q| - 1]);
    PathToUnique(t, []);
  }

  /** A node two or more levels down: its parent and grandparent, how
      their pointers lead to each other, and the paths that reach them. */
  lemma GrandView(t: Tree, m: map<int, NodeRec>, P: Path)
    requires Unique(t) && Linked(t, m, Nil) && IsNodePath(t, P) && |P| >= 2
    ensures OnPath(t, P[..|P| - 2])
    ensures var g, d1, d2 := P[..|P| - 2], P[|P| - 2], P[|P| - 1];
      var G := Sub(t, g);
      G.Node? && Child(G, d1).Node? && Child(Child(G, d1), d2).Node? &&
      var n, p := Sub(t, P).id, Child(G, d1).id;
      n == Child(Child(G, d1), d2).id &&
      n in m && p in m && G.id in m && m[n].parent == p && m[p].parent == G.id &&
      (m[p].left == n <==> d2 == Left) && (m[p].right == n <==> d2 == Right) &&
      (m[G.id].left == p <==> d1 == Left) && (m[G.id].right == p <==> d1 == Right) &&
      G.id in Ids(t) && PathTo(t, G.id) == g &&
      p in Ids(t) && PathTo(t, p) == g + [d1] && p != RootPtr(t)
  {
    var g, d1 := P[..|P| - 2], P[|P| - 2];
    SplitPath(t, P);
    ParentView(t, m, P);
    assert P[..|P| - 1] == g + [d1];
    assert P[..|P| - 1][..|P| - 2] == g;
    ParentView(t, m, P[..|P| - 1]);
    SubStep(t, g, d1);
  }

  /** The pointer writes of `Insert` after its descent: a new record below
      the last node of the descent, and that node's child pointer on the
      side the descent left it by. */
  lemma AttachLinked(t: Tree, m0: map<int, NodeRec>, m1: map<int, NodeRec>, n: nat, v: int,
                     q: Path, d: Dir)
    requires Unique(t) && Linked(t, m0, Nil) && n !in m0
    requires IsNodePath(t, q) && Child(Sub(t, q), d) == Leaf
    requires var p := Sub(t, q).id;
      p in m0 &&
      m1 == (if d == Left then SetLeft(m0[n := NodeRec(p, Nil, Nil, v)], p, n)
             else SetRight(m0[n := NodeRec(p, Nil, Nil, v)], p, n))
    ensures OnPath(t, q + [d]) && Linked(Replace(t, q + [d], Node(Leaf, n, v, Leaf)), m1, Nil)
    ensures m1.Keys == m0.Keys + {n} && n !in Ids(t)
  {
    var x := Sub(t, q);
    var p := x.id;
    LinkedKeys(t, m0, Nil);
    SubIds(t, q);
    assert p in Ids(t) && n != p;
    assert m1[n] == NodeRec(p, Nil, Nil, v);
    assert m1[p] == (if d == Left then m0[p].(left := n) else m0[p].(right := n));
    assert Agree(m0, m1, Ids(t) - Ids(Child(x, d)) - {x.id}) by {
      forall i | i in Ids(t) - Ids(Child(x, d)) - {x.id} ensures i in m0 && i in m1 && m0[i] == m1[i] {
        assert i in m0 && i != n && i != p;
      }
    }
    LinkedSwapChild(t, m0, m1, q, d, Node(Leaf, n, v, Leaf));
  }

  /** The records after hanging a new node holding `v` where the insertion
      descent of `t` ends realise the attached tree; the arena gains that
      one record and keeps every other. */
  lemma AttachRealised(t: Tree, m0: map<int, NodeRec>, m1: map<int, NodeRec>, n: nat, v: int)
    requires Unique(t) && Linked(t, m0, Nil) && t.Node?
    requires forall i :: i in m0 ==> 0 <= i < n
    requires var D := DescentPath(t, v);
      D != [] && IsNodePath(t, D[..|D| - 1]) &&
      var p := Sub(t, D[..|D| - 1]).id;
      p in m0 &&
      m1 == (if D[|D| - 1] == Left then SetLeft(m0[n := NodeRec(p, Nil, Nil, v)], p, n)
             else SetRight(m0[n := NodeRec(p, Nil, Nil, v)], p, n))
    ensures Linked(Attach(t, n, v), m1, Nil) && RootPtr(Attach(t, n, v)) == RootPtr(t)
    ensures (forall i :: i in m1 ==> 0 <= i < n + 1) && m1.Keys == m0.Keys + {n} && n !in Ids(t)
  {
    var D := DescentPath(t, v);
    var q, d := D[..|D| - 1], D[|D| - 1];
    ParentOfSub(t, D, Nil);
    assert q + [d] == D;
    assert n !in m0;
    AttachLinked(t, m0, m1, n, v, q, d);
  }

  /** The records after `transplant(n, nn)` where `nn` is the root of one of
      `n`'s subtrees: that subtree takes `n`'s place in the tree. */
  lemma TransplantLinked(t: Tree, m0: map<int, NodeRec>, m3: map<int, NodeRec>, root3: int,
                         P: Path, ch: Tree)
    requires Unique(t) && Linked(t, m0, Nil) && IsNodePath(t, P)
    requires ch == Sub(t, P).left || ch == Sub(t, P).right
    requires var n, nn := Sub(t, P).id, RootPtr(ch);
      n in m0 && (nn != Nil ==> nn in m0) && (m0[n].parent != Nil ==> m0[n].parent in m0)
    requires var n, nn := Sub(t, P).id, RootPtr(ch); var q := m0[n].parent;
      root3 == (if q == Nil then nn else RootPtr(t)) &&
      m3 == SetParentIf(if q == Nil then m0
                        else if n == m0[q].left then SetLeft(m0, q, nn)
                        else SetRight(m0, q, nn), nn, q)
    ensures Linked(Replace(t, P, ch), m3, Nil) && root3 == RootPtr(Replace(t, P, ch))
    ensures m3.Keys == m0.Keys
  {
    var s := Sub(t, P);
    var n, nn := s.id, RootPtr(ch);
    At(t, m0, P);
    LinkedSub(t, m0, Nil, P);
    SubIds(t, P);
    assert Linked(ch, m0, n) && Unique(ch) && Ids(ch) <= Ids(s) && n !in Ids(ch);
    LinkedKeys(ch, m0, n);
    if P == [] {
      assert m0[n].parent == Nil && Replace(t, P, ch) == ch;
      assert m3 == SetParentIf(m0, RootPtr(ch), Nil);
      TransplantRoot(ch, m0, m3, n);
    } else {
      ParentOfSub(t, P, Nil);
      assert m0[n].parent == ParentOf(t, P, Nil) != Nil;
      TransplantBelow(t, m0, m3, P, ch);
    }
  }

  /** `transplant` at the root: the subtree becomes the whole tree. */
  lemma TransplantRoot(ch: Tree, m0: map<int, NodeRec>, m3: map<int, NodeRec>, n: nat)
    requires Linked(ch, m0, n) && Unique(ch) && n !in Ids(ch)
    requires forall i :: i in Ids(ch) ==> i in m0
    requires m3 == SetParentIf(m0, RootPtr(ch), Nil)
    ensures Linked(ch, m3, Nil) && m3.Keys == m0.Keys
  {
    if ch.Node? {
      LinkedReparent(ch, m0, m3, n, Nil);
    }
  }

  /** `transplant` below the root: the parent's slot and the subtree's
      parent pointer are rewired, in either order. */
  lemma TransplantBelow(t: Tree, m0: map<int, NodeRec>, m3: map<int, NodeRec>, P: Path, ch: Tree)
    requires Unique(t) && Linked(t, m0, Nil) && IsNodePath(t, P) && P != []
    requires ch == Sub(t, P).left || ch == Sub(t, P).right
    requires var s := Sub(t, P);
      Linked(ch, m0, s.id) && Unique(ch) && Ids(ch) <= Ids(s) && s.id !in Ids(ch) &&
      (forall i :: i in Ids(ch) ==> i in m0) &&
      s.id in m0 && m0[s.id].parent == ParentOf(t, P, Nil)
    requires var n, nn := Sub(t, P).id, RootPtr(ch); var q := ParentOf(t, P, Nil);
      q in m0 &&
      m3 == SetParentIf(if n == m0[q].left then SetLeft(m0, q, nn) else SetRight(m0, q, nn), nn, q)
    ensures Linked(Replace(t, P, ch), m3, Nil) && RootPtr(Replace(t, P, ch)) == RootPtr(t)
    ensures m3.Keys == m0.Keys
  {
    var s := Sub(t, P);
    var n, nn := s.id, RootPtr(ch);
    var q', d := P[..|P| - 1], P[|P| - 1];
    var q := ParentOf(t, P, Nil);
    ParentOfSub(t, P, Nil);
    SubIds(t, q');
    SubIds(t, P);
    assert q !in Ids(s) by {
      SubIds(Sub(t, q'), [d]);
      assert [d][1..] == [];
    }
    var m2 := SetParentIf(m0, nn, q);
    if ch.Node? {
      LinkedReparent(ch, m0, m2, n, q);
    }
    ChildSide(t, m0, q', d);
    assert nn != Nil ==> nn in Ids(s);
    SwapWrites(m0, q, nn, d == Left, q);
    assert m3 == if d == Left then SetLeft(m2, q, RootPtr(ch)) else SetRight(m2, q, RootPtr(ch));
    LinkedKeys(t, m0, Nil);
    assert Agree(m0, m2, Ids(t) - Ids(s));
    assert Linked(ch, m2, ParentOf(t, P, Nil));
    Relink(t, m0, m2, m3, P, ch);
  }

  /** A child-slot write and a parent-pointer write to different records
      commute. */
  lemma SwapWrites(m0: map<int, NodeRec>, q: int, nn: int, left: bool, par: int)
    requires q in m0 && (nn != Nil ==> nn in m0 && nn != q)
    ensures SetParentIf(if left then SetLeft(m0, q, nn) else SetRight(m0, q, nn), nn, par)
         == if left then SetLeft(SetParentIf(m0, nn, par), q, nn) else SetRight(SetParentIf(m0, nn, par), q, nn)
  {
  }

  /** What the two-children branch of `Remove` reads after the splay: the
      root's children, the rightmost node `s` of the left subtree and its
      parent.  `s` is the left child itself exactly when that child has no
      right child; otherwise `s` is a right child of a node below the root. */
  lemma MaxView(t1: Tree, m1: map<int, NodeRec>)
    requires Unique(t1) && Linked(t1, m1, Nil) && t1.Node? && t1.left.Node? && t1.right.Node?
    ensures IsNodePath(t1, [Left]) && PathTo(t1, t1.left.id) == [Left] && Sub(t1, [Left]) == t1.left
    ensures var L, R := t1.left, t1.right; var M := Rightmost(L); var s := M.id;
      t1.id in m1 && m1[t1.id].left == L.id && m1[t1.id].right == R.id && L.id in m1 && R.id in m1 &&
      s in m1 && m1[s].value == M.value && m1[s].parent in m1 &&
      (L.right == Leaf ==> s == L.id && m1[s].parent == t1.id) &&
      (L.right != Leaf ==> s != L.id && m1[s].parent != t1.id && m1[m1[s].parent].left != s)
  {
    var L := t1.left;
    var Sp := SpinePath(L);
    var P := [Left] + Sp;
    assert [Left][1..] == [];
    SubAppend(t1, [Left], Sp);
    PathToUnique(t1, [Left]);
    At(t1, m1, []);
    At(t1, m1, P);
    ParentView(t1, m1, P);
    if L.right != Leaf {
      assert P[|P| - 1] == Sp[|Sp| - 1] == Right;
      CutMaxIds(L);
      assert Rightmost(L) == Rightmost(L.right);
      CutMaxIds(L.right);
    }
  }

  /** Emptying the slot that holds the rightmost node of the left subtree
      leaves the records of the tree with that node cut off. */
  lemma CutLinked(t1: Tree, m1: map<int, NodeRec>, ms: map<int, NodeRec>)
    requires Unique(t1) && Linked(t1, m1, Nil) && t1.Node? && t1.left.Node? && t1.left.right.Node?
    requires var s := Rightmost(t1.left).id;
      s in m1 && m1[s].parent in m1 &&
      ms == SetRight(m1, m1[s].parent, Nil)
    ensures Linked(Node(CutMax(t1.left), t1.id, t1.value, t1.right), ms, Nil)
    ensures ms.Keys == m1.Keys
  {
    var L := t1.left;
    var Sp := SpinePath(L);
    var P := [Left] + Sp;
    assert [Left][1..] == [];
    SubAppend(t1, [Left], Sp);
    At(t1, m1, P);
    LinkedKeys(t1, m1, Nil);
    assert P[|P| - 1] == Right;
    Relink(t1, m1, m1, ms, P, Leaf);
    CutMaxReplace(L);
    assert P[1..] == Sp;
  }

  /** The identities the two-children branch of `Remove` rewires are
      pairwise distinct and sit where the rewiring expects them. */
  lemma SpliceDistinct(t1: Tree)
    requires Unique(t1) && t1.Node? && t1.left.Node? && t1.left.right.Node? && t1.right.Node?
    ensures var L, R, C := t1.left, t1.right, CutMax(t1.left); var s := Rightmost(L).id;
      C.Node? && C.id == L.id && s != L.id && s != R.id && L.id != R.id &&
      s !in Ids(C) && s !in Ids(R) && R.id !in Ids(C) && L.id !in Ids(R) && Ids(C) <= Ids(L) &&
      Unique(C) && Unique(R)
  {
    var L, R := t1.left, t1.right;
    CutMaxIds(L);
    assert Rightmost(L) == Rightmost(L.right);
    CutMaxIds(L.right);
  }

  /** The five pointer writes that put `s` in the root's place, with `l` and
      `r` its new children, record by record. */
  lemma SpliceWrites(ms: map<int, NodeRec>, me: map<int, NodeRec>, s: int, l: int, r: int)
    requires s in ms && l in ms && r in ms && s != l && s != r && l != r
    requires me == SetParent(SetParent(SetRight(SetParent(SetLeft(ms, s, l), l, s), s, r), r, s), s, Nil)
    ensures me.Keys == ms.Keys
    ensures me[s] == ms[s].(parent := Nil, left := l, right := r)
    ensures me[l] == ms[l].(parent := s) && me[r] == ms[r].(parent := s)
    ensures forall i :: i in ms && i != s && i != l && i != r ==> i in me && me[i] == ms[i]
  {
  }

  /** The remaining writes of the two-children branch: the rightmost node
      `s` takes the root's two subtrees and becomes the root. */
  lemma FinishLinked(t1: Tree, ms: map<int, NodeRec>, me: map<int, NodeRec>)
    requires Unique(t1) && t1.Node? && t1.left.Node? && t1.left.right.Node? && t1.right.Node?
    requires Linked(Node(CutMax(t1.left), t1.id, t1.value, t1.right), ms, Nil)
    requires var L, R := t1.left, t1.right; var s := Rightmost(L).id;
      s in ms && ms[s].value == Rightmost(L).value && L.id in ms && R.id in ms && me.Keys == ms.Keys &&
      me[s] == ms[s].(parent := Nil, left := L.id, right := R.id) &&
      me[L.id] == ms[L.id].(parent := s) && me[R.id] == ms[R.id].(parent := s) &&
      (forall i :: i in ms && i != s && i != L.id && i != R.id ==> i in me && me[i] == ms[i])
    ensures var L, R := t1.left, t1.right; var M := Rightmost(L);
      Linked(Node(CutMax(L), M.id, M.value, R), me, Nil)
  {
    var L, R := t1.left, t1.right;
    var M := Rightmost(L);
    var s := M.id;
    var C := CutMax(L);
    SpliceDistinct(t1);
    assert Linked(C, ms, t1.id) && Linked(R, ms, t1.id);
    LinkedKeys(C, ms, t1.id);
    LinkedKeys(R, ms, t1.id);
    assert Agree(ms, me, Ids(C) - {C.id}) by {
      forall i | i in Ids(C) - {C.id} ensures i in ms && i in me && ms[i] == me[i] {
        assert i != s && i != R.id;
      }
    }
    assert Agree(ms, me, Ids(R) - {R.id}) by {
      forall i | i in Ids(R) - {R.id} ensures i in ms && i in me && ms[i] == me[i] {
        assert i != s && i != C.id;
      }
    }
    assert me[C.id] == ms[C.id].(parent := s);
    LinkedReparent(C, ms, me, t1.id, s);
    LinkedReparent(R, ms, me, t1.id, s);
  }

  /** All the writes of the two-children branch together: the rightmost
      node `s` of the left subtree is cut out and takes the root's place. */
  lemma RemoveRootLinked(t1: Tree, m1: map<int, NodeRec>, me: map<int, NodeRec>)
    requires Unique(t1) && Ordered(t1) && Linked(t1, m1, Nil)
    requires t1.Node? && t1.left.Node? && t1.left.right.Node? && t1.right.Node?
    requires var L, R := t1.left, t1.right; var s := Rightmost(L).id;
      s in m1 && m1[s].parent in m1 && L.id in m1 && R.id in m1 &&
      me == SetParent(SetParent(SetRight(SetParent(SetLeft(SetRight(m1, m1[s].parent, Nil), s, L.id), L.id, s), s, R.id), R.id, s), s, Nil)
    ensures var L, R := t1.left, t1.right; var M := Rightmost(L); var t2 := Node(CutMax(L), M.id, M.value, R);
      Linked(t2, me, Nil) && Unique(t2) && Ordered(t2) && RootPtr(t2) == M.id && me.Keys == m1.Keys &&
      Ids(t2) <= Ids(t1)
  {
    var ms := SetRight(m1, m1[Rightmost(t1.left).id].parent, Nil);
    MaxView(t1, m1);
    CutLinked(t1, m1, ms);
    SpliceDistinct(t1);
    SpliceWrites(ms, me, Rightmost(t1.left).id, t1.left.id, t1.right.id);
    FinishLinked(t1, ms, me);
    SpliceMax(t1);
  }

  /** `RemoveSpec` branch by branch, once the lookup has found a node. */
  lemma RemoveShape(t: Tree, v: int)
    requires Unique(t) && FindPath(t, v).Some?
    ensures IsNodePath(t, FindPath(t, v).value)
    ensures var P := FindPath(t, v).value; var x := Sub(t, P);
      (x.left == Leaf ==> RemoveSpec(t, v) == (Replace(t, P, x.right), Removed)) &&
      (x.left != Leaf && x.right == Leaf ==> RemoveSpec(t, v) == (Replace(t, P, x.left), Removed))
    ensures var P := FindPath(t, v).value; var x := Sub(t, P); var t1 := Rotations.Splay(t, P);
      x.left != Leaf && x.right != Leaf ==>
        t1.Node? && t1.left.Node? &&
        (t1.left.right == Leaf ==> RemoveSpec(t, v).1 == Panicked) &&
        (t1.left.right != Leaf ==>
           RemoveSpec(t, v) == (Node(CutMax(t1.left), Rightmost(t1.left).id, Rightmost(t1.left).value, t1.right), Removed))
  {
    FindPathSound(t, v);
    SplayKeepsSides(t, FindPath(t, v).value);
  }

  class SplayTree {
    var root: int
    var nodes: map<int, NodeRec>
    /** The next identity to allocate; every record in `nodes` is older. */
    var nextId: nat
    /** The tree reachable from `root`. */
    ghost var shape: Tree

    ghost predicate Valid()
      reads this
    {
      Unique(shape) && Linked(shape, nodes, Nil) && root == RootPtr(shape) && Ordered(shape) &&
      (forall i :: i in nodes ==> 0 <= i < nextId)
    }

    /** The values as an in-order traversal reports them. */
    ghost function Contents(): seq<Elem>
      reads this
    {
      InOrder(shape)
    }

    /** NewSplayTree: an empty tree. */
    constructor ()
      ensures Valid() && shape == Leaf && root == Nil
    {
      root := Nil;
      nodes := map[];
      nextId := 0;
      shape := Leaf;
    }

    /** Points the slot that held `n` (in `t`'s new parent, or the root) at `t`. */
    method CorrectParent(n: nat, t: nat)
      requires t in nodes
      requires nodes[t].parent != Nil ==> nodes[t].parent in nodes
      modifies this
      ensures nextId == old(nextId) && shape == old(shape)
      ensures old(nodes[t].parent) == Nil ==> root == t && nodes == old(nodes)
      ensures old(nodes[t].parent) != Nil ==>
        var q := old(nodes[t].parent);
        root == old(root) &&
        nodes == if n == old(nodes[q].left) then SetLeft(old(nodes), q, t) else SetRight(old(nodes), q, t)
    {
      var q := nodes[t].parent;
      if q != Nil {
        if n == nodes[q].left {
          nodes := SetLeft(nodes, q, t);
        } else {
          nodes := SetRight(nodes, q, t);
        }
      } else {
        root := t;
      }
    }

    /** rotateLeft: `n`'s right child `t` takes `n`'s place, `n` becomes
        `t.left` and takes over `t`'s old left subtree. */
    method RotateLeft(n: nat) returns (t: nat)
      requires Valid() && n in Ids(shape) && n in nodes && nodes[n].right != Nil
      modifies this
      ensures Valid() && nextId == old(nextId) && nodes.Keys == old(nodes.Keys)
      ensures IsNodePath(old(shape), PathTo(old(shape), n))
      ensures var s := Sub(old(shape), PathTo(old(shape), n));
        s.right.Node? && shape == Replace(old(shape), PathTo(old(shape), n), RotL(s))
      ensures t == old(nodes[n].right)
      ensures old(nodes[n].parent) == Nil ==> root == t
    {
      ghost var t0 := shape;
      ghost var p := PathTo(shape, n);
      ghost var m0 := nodes;
      RotLPrepare(shape, m0, n);

      var m := nodes;
      t := m[n].right;
      m := SetParent(m, t, m[n].parent);
      m := SetRight(m, n, m[t].left);
      if m[n].right != Nil {
        m := SetParent(m, m[n].right, n);
      }
      m := SetLeft(m, t, n);
      m := SetParent(m, n, t);
      nodes := m;

      ghost var m2 := nodes;
      CorrectParent(n, t);
      RotLInstall(t0, m0, m2, nodes, root, n);
      shape := Replace(t0, p, RotL(Sub(t0, p)));
    }

    /** rotateRight: the mirror image of `RotateLeft`. */
    method RotateRight(n: nat) returns (t: nat)
      requires Valid() && n in Ids(shape) && n in nodes && nodes[n].left != Nil
      modifies this
      ensures Valid() && nextId == old(nextId) && nodes.Keys == old(nodes.Keys)
      ensures IsNodePath(old(shape), PathTo(old(shape), n))
      ensures var s := Sub(old(shape), PathTo(old(shape), n));
        s.left.Node? && shape == Replace(old(shape), PathTo(old(shape), n), RotR(s))
      ensures t == old(nodes[n].left)
      ensures old(nodes[n].parent) == Nil ==> root == t
    {
      ghost var t0 := shape;
      ghost var p := PathTo(shape, n);
      ghost var m0 := nodes;
      RotRPrepare(shape, m0, n);

      var m := nodes;
      t := m[n].left;
      m := SetParent(m, t, m[n].parent);
      m := SetLeft(m, n, m[t].right);
      if m[n].left != Nil {
        m := SetParent(m, m[n].left, n);
      }
      m := SetRight(m, t, n);
      m := SetParent(m, n, t);
      nodes := m;

      ghost var m2 := nodes;
      CorrectParent(n, t);
      RotRInstall(t0, m0, m2, nodes, root, n);
      shape := Replace(t0, p, RotR(Sub(t0, p)));
    }

    /** splay: rotates `n` up to the root, a zig-zig or zig-zag step at a
        time while it has a grandparent and a final zig when its parent is
        the root.  The result is the functional `Splay` of the old shape at
        `n`'s path. */
    method Splay(n: nat)
      requires Valid() && n in Ids(shape)
      modifies this
      ensures Valid() && nextId == old(nextId) && nodes.Keys == old(nodes.Keys)
      ensures IsNodePath(old(shape), PathTo(old(shape), n))
      ensures shape == Rotations.Splay(old(shape), PathTo(old(shape), n))
      ensures root == n && n in nodes && nodes[n].parent == Nil
    {
      PathToSub(shape, n);
      ghost var goal := Rotations.Splay(shape, PathTo(shape, n));
      At(shape, nodes, PathTo(shape, n));
      while n != root
        invariant Valid() && nextId == old(nextId) && nodes.Keys == old(nodes.Keys)
        invariant n in Ids(shape) && IsNodePath(shape, PathTo(shape, n)) && Sub(shape, PathTo(shape, n)).id == n
        invariant Rotations.Splay(shape, PathTo(shape, n)) == goal
        decreases |PathTo(shape, n)|
      {
        ghost var P := PathTo(shape, n);
        ghost var t0 := shape;
        ParentView(shape, nodes, P);
        var p := nodes[n].parent;
        if p == root {
          ZigKeepsSplay(t0, P);
          if n == nodes[p].left {
            var _ := RotateRight(p);
          } else {
            assert n == nodes[p].right;
            var _ := RotateLeft(p);
          }
          break;
        }

        ghost var g, d1, d2 := P[..|P| - 2], P[|P| - 2], P[|P| - 1];
        GrandView(t0, nodes, P);
        ghost var G := Sub(t0, g);
        StepKeepsSplay(t0, P);
        var gp := nodes[p].parent;
        var nodeLeft := n == nodes[p].left;
        var nodeRight := n == nodes[p].right;
        var parentLeft := p == nodes[gp].left;
        var parentRight := p == nodes[gp].right;

        if nodeLeft && parentLeft {
          // `n` and its parent are both left children
          ZigZigMid(t0, g, Left);
          var _ := RotateRight(gp);
          assert shape == Replace(t0, g, Zig(G, Left));
          At(shape, nodes, g);
          var _ := RotateRight(p);
          assert shape == Replace(t0, g, ZigStep(G, d1, d2));
        } else if nodeRight && parentRight {
          // `n` and its parent are both right children
          ZigZigMid(t0, g, Right);
          var _ := RotateLeft(gp);
          assert shape == Replace(t0, g, Zig(G, Right));
          At(shape, nodes, g);
          var _ := RotateLeft(p);
          assert shape == Replace(t0, g, ZigStep(G, d1, d2));
        } else if nodeRight && parentLeft {
          // `n` is a right child, its parent a left child
          ZigZagMid(t0, g, Left, Right);
          var _ := RotateLeft(p);
          assert shape == Replace(t0, g, WithChild(G, Left, Zig(Child(G, Left), Right)));
          At(shape, nodes, g);
          var _ := RotateRight(gp);
          assert shape == Replace(t0, g, ZigStep(G, d1, d2));
        } else {
          // `n` is a left child, its parent a right child
          assert nodeLeft && parentRight;
          ZigZagMid(t0, g, Right, Left);
          var _ := RotateRight(p);
          assert shape == Replace(t0, g, WithChild(G, Right, Zig(Child(G, Right), Left)));
          At(shape, nodes, g);
          var _ := RotateLeft(gp);
          assert shape == Replace(t0, g, ZigStep(G, d1, d2));
        }
      }
      At(shape, nodes, []);
    }

    /** Insert: hangs a new node at the end of the insertion descent (equal
        values go right) and splays it to the root; the first node of an
        empty tree simply becomes the root. */
    method Insert(v: int)
      requires Valid()
      modifies this
      ensures Valid() && nextId == old(nextId) + 1 && nodes.Keys == old(nodes.Keys) + {old(nextId)}
      ensures shape == InsertSpec(old(shape), old(nextId), v)
      ensures root == old(nextId) && nodes[root].value == v
    {
      ghost var t0 := shape;
      ghost var m0 := nodes;
      var n := nextId;
      LinkedKeys(shape, nodes, Nil);
      if root == Nil {
        nextId := nextId + 1;
        nodes := nodes[n := NodeRec(Nil, Nil, Nil, v)];
        root := n;
        shape := Node(Leaf, n, v, Leaf);
        assert InOrder(shape) == [Elem(n, v)];
        return;
      }

      n := AttachNode(v);
      Splay(n);
      InsertSpecFacts(t0, n, v);
      At(shape, nodes, []);
    }

    /** The part of `Insert` before the splay on a non-empty tree: a new
        node holding `v` is hung in the empty slot where the descent ends. */
    method AttachNode(v: int) returns (n: nat)
      requires Valid() && root != Nil
      modifies this
      ensures n == old(nextId) && nextId == old(nextId) + 1 && nodes.Keys == old(nodes.Keys) + {n}
      ensures Valid() && shape == Attach(old(shape), n, v)
      ensures n in Ids(shape) && PathTo(shape, n) == DescentPath(old(shape), v)
    {
      ghost var t0 := shape;
      ghost var m0 := nodes;
      n := nextId;
      var p, left := InsertionPoint(v);
      var m := nodes[n := NodeRec(p, Nil, Nil, v)];
      if left {
        m := SetLeft(m, p, n);
      } else {
        m := SetRight(m, p, n);
      }
      AttachRealised(t0, m0, m, n, v);
      AttachReaches(t0, n, v);
      nextId, nodes, shape := nextId + 1, m, Attach(t0, n, v);
    }

    /** The descent of `Insert`: the node below which the new node goes, and
        on which side.  Its child pointer on that side is empty. */
    method InsertionPoint(v: int) returns (p: int, left: bool)
      requires Valid() && root != Nil
      ensures var D := DescentPath(shape, v);
        D != [] && IsNodePath(shape, D[..|D| - 1]) && p == Sub(shape, D[..|D| - 1]).id &&
        left == (D[|D| - 1] == Left) && p in nodes &&
        (if left then nodes[p].left else nodes[p].right) == Nil
    {
      var t := root;
      p := Nil;
      left := true;
      ghost var D: Path := [];
      assert [] + DescentPath(shape, v) == DescentPath(shape, v);
      while t != Nil
        invariant OnPath(shape, D) && t == RootPtr(Sub(shape, D))
        invariant D + DescentPath(Sub(shape, D), v) == DescentPath(shape, v)
        invariant D == [] ==> t != Nil
        invariant D != [] ==>
          IsNodePath(shape, D[..|D| - 1]) && p == Sub(shape, D[..|D| - 1]).id && left == (D[|D| - 1] == Left)
        decreases Size(Sub(shape, D))
      {
        DescentRead(shape, nodes, D, v);
        p := t;
        if nodes[t].value > v {
          t := nodes[t].left;
          left := true;
          D := D + [Left];
        } else {
          t := nodes[t].right;
          left := false;
          D := D + [Right];
        }
      }
      DescentEnd(shape, nodes, D, v, p, left);
    }

    /** find: the lookup descent from the root; `Nil` when no node holds `v`. */
    method Find(v: int) returns (n: int)
      requires Valid()
      ensures n == Nil <==> !Contains(shape, v)
      ensures n != Nil ==>
        FindPath(shape, v).Some? && IsNodePath(shape, FindPath(shape, v).value) &&
        n == Sub(shape, FindPath(shape, v).value).id && n in nodes && nodes[n].value == v
    {
      FindPathComplete(shape, v);
      n := root;
      ghost var D: Path := [];
      assert FindPath(shape, v).Some? ==> [] + FindPath(shape, v).value == FindPath(shape, v).value;
      while n != Nil
        invariant OnPath(shape, D) && n == RootPtr(Sub(shape, D))
        invariant FindPath(shape, v) == Extend(D, FindPath(Sub(shape, D), v))
        decreases Size(Sub(shape, D))
      {
        LinkedSub(shape, nodes, Nil, D);
        if nodes[n].value == v {
          assert FindPath(Sub(shape, D), v) == Some([]);
          assert D + [] == D;
          return;
        }
        FindStep(shape, D, v);
        if nodes[n].value > v {
          n := nodes[n].left;
          D := D + [Left];
        } else {
          n := nodes[n].right;
          D := D + [Right];
        }
      }
    }

    /** Remove: takes out the node that `find` reaches.  A node with an
        empty side is replaced by its other subtree in place; a node with two
        children goes through `RemoveTwoChildren`. */
    method Remove(v: int) returns (r: Outcome)
      requires Valid()
      modifies this
      ensures r == RemoveSpec(old(shape), v).1
      ensures r != Panicked ==> Valid() && shape == RemoveSpec(old(shape), v).0
      ensures r != Panicked ==> nextId == old(nextId) && nodes.Keys == old(nodes.Keys)
      ensures r == NotFound ==> nodes == old(nodes) && root == old(root)
    {
      var n := Find(v);
      if n == Nil {
        FindPathComplete(shape, v);
        return NotFound;
      }
      ghost var t0 := shape;
      ghost var m0 := nodes;
      ghost var P := FindPath(shape, v).value;
      ghost var x := Sub(shape, P);
      RemoveShape(t0, v);
      At(shape, nodes, P);
      if P != [] {
        ParentOfSub(shape, P, Nil);
        At(shape, nodes, P[..|P| - 1]);
      }
      LinkedSub(shape, nodes, Nil, P);
      LinkedKeys(x, nodes, ParentOf(shape, P, Nil));

      if nodes[n].left == Nil {
        assert x.left == Leaf;
        Transplant(n, nodes[n].right);
        TransplantLinked(t0, m0, nodes, root, P, x.right);
        ghost var a, b := SpliceChild(t0, P);
        shape := Replace(t0, P, x.right);
        return Removed;
      } else if nodes[n].right == Nil {
        assert x.left != Leaf && x.right == Leaf;
        Transplant(n, nodes[n].left);
        TransplantLinked(t0, m0, nodes, root, P, x.left);
        ghost var a, b := SpliceChild(t0, P);
        shape := Replace(t0, P, x.left);
        return Removed;
      }
      PathToUnique(t0, P);
      r := RemoveTwoChildren(n);
    }

    /** The two-children branch of `Remove`: `n` is splayed to the root and
        replaced there by the rightmost node `s` of its left subtree, cut off
        its parent first; `s`'s own left subtree is overwritten.  When `s` is
        the root's left child, the cut empties the root's left link, so `s`
        takes an empty left link and the write through it dereferences a null
        pointer, reported as `Panicked`. */
    method RemoveTwoChildren(n: nat) returns (r: Outcome)
      requires Valid() && n in Ids(shape) && n in nodes && nodes[n].left != Nil && nodes[n].right != Nil
      modifies this
      ensures IsNodePath(old(shape), PathTo(old(shape), n))
      ensures var t1 := Rotations.Splay(old(shape), PathTo(old(shape), n));
        t1.Node? && t1.left.Node? && t1.right.Node? &&
        (r == Panicked <==> t1.left.right == Leaf) && (r == Panicked || r == Removed)
      ensures var t1 := Rotations.Splay(old(shape), PathTo(old(shape), n)); var M := Rightmost(t1.left);
        r == Removed ==>
          Valid() && shape == Node(CutMax(t1.left), M.id, M.value, t1.right) &&
          nextId == old(nextId) && nodes.Keys == old(nodes.Keys)
    {
      PathToSub(shape, n);
      ghost var P := PathTo(shape, n);
      At(shape, nodes, P);
      SplayKeepsSides(shape, P);
      Splay(n);
      r := SpliceRoot();
    }

    /** The two-children branch after the splay: the rightmost node of the
        root's left subtree is cut out of its slot and takes the root's
        place.  The write of the left subtree into its left slot comes
        before the dereference that panics when it was the left child. */
    method SpliceRoot() returns (r: Outcome)
      requires Valid() && shape.Node? && shape.left.Node? && shape.right.Node?
      modifies this
      ensures (r == Panicked <==> old(shape).left.right == Leaf) && (r == Panicked || r == Removed)
      ensures var t1 := old(shape); var M := Rightmost(t1.left);
        r == Removed ==>
          Valid() && shape == Node(CutMax(t1.left), M.id, M.value, t1.right) &&
          nextId == old(nextId) && nodes.Keys == old(nodes.Keys)
    {
      ghost var t1 := shape;
      ghost var L, R := t1.left, t1.right;
      ghost var M := Rightmost(L);
      MaxView(t1, nodes);
      var n := root;
      ghost var m1 := nodes;
      var s := Max(nodes[n].left);
      var m := nodes;
      var sp := m[s].parent;
      if m[sp].left == s {
        m := SetLeft(m, sp, Nil);
      } else {
        m := SetRight(m, sp, Nil);
      }
      m := SetLeft(m, s, m[n].left);
      if m[s].left == Nil {
        nodes := m;
        return Panicked;
      }
      assert L.right != Leaf && m == SetLeft(SetRight(m1, sp, Nil), s, L.id);
      m := SetParent(m, m[s].left, s);
      m := SetRight(m, s, m[n].right);
      m := SetParent(m, m[s].right, s);
      m := SetParent(m, s, Nil);
      RemoveRootLinked(t1, m1, m);
      nodes := m;
      root := s;
      shape := Node(CutMax(L), s, M.value, R);
      return Removed;
    }

    /** Has: looks `v` up and, when it is there, splays its node to the root.
        The contents never change. */
    method Has(v: int) returns (b: bool)
      requires Valid()
      modifies this
      ensures Valid() && nextId == old(nextId) && nodes.Keys == old(nodes.Keys)
      ensures b == Contains(old(shape), v) && Contents() == old(Contents())
      ensures !b ==> shape == old(shape) && nodes == old(nodes) && root == old(root)
      ensures b ==> FindPath(old(shape), v).Some? && IsNodePath(old(shape), FindPath(old(shape), v).value)
      ensures b ==> shape == Rotations.Splay(old(shape), FindPath(old(shape), v).value) &&
                    shape.Node? && shape.value == v && nodes[root].value == v
    {
      var n := Find(v);
      if n != Nil {
        ghost var p := FindPath(shape, v).value;
        PathToUnique(shape, p);
        FindPathSound(shape, v);
        SplayKeepsSides(shape, p);
        SplayFacts(shape, p);
        Splay(n);
        At(shape, nodes, []);
        return true;
      }
      return false;
    }

    /** transplant: puts `nn` (possibly `Nil`) into the slot that holds `n`,
        in `n`'s parent or at the root, and points `nn` back at that parent. */
    method Transplant(n: nat, nn: int)
      requires n in nodes && (nodes[n].parent != Nil ==> nodes[n].parent in nodes)
      requires nn != Nil ==> nn in nodes
      modifies this
      ensures nextId == old(nextId) && shape == old(shape)
      ensures var q := old(nodes[n].parent);
        root == (if q == Nil then nn else old(root)) &&
        nodes == SetParentIf(if q == Nil then old(nodes)
                             else if n == old(nodes[q].left) then SetLeft(old(nodes), q, nn)
                             else SetRight(old(nodes), q, nn), nn, q)
    {
      var q := nodes[n].parent;
      if q == Nil {
        root := nn;
      } else if n == nodes[q].left {
        nodes := SetLeft(nodes, q, nn);
      } else {
        nodes := SetRight(nodes, q, nn);
      }
      if nn != Nil {
        nodes := SetParent(nodes, nn, nodes[n].parent);
      }
    }

    /** max: the right-spine descent from `n`, ending at the largest value of
        `n`'s subtree. */
    method Max(n: nat) returns (m: nat)
      requires Valid() && n in Ids(shape)
      ensures IsNodePath(shape, PathTo(shape, n))
      ensures var s := Sub(shape, PathTo(shape, n));
        m == Rightmost(s).id && m in nodes && nodes[m].right == Nil && nodes[m].value == Rightmost(s).value &&
        Elem(m, nodes[m].value) in InOrder(s) &&
        forall e :: e in InOrder(s) ==> e.value <= nodes[m].value
    {
      PathToSub(shape, n);
      ghost var s := Sub(shape, PathTo(shape, n));
      OrderedSub(shape, PathTo(shape, n));
      RightmostMax(s);
      LinkedSub(shape, nodes, Nil, PathTo(shape, n));
      ghost var cur := s;
      ghost var par := ParentOf(shape, PathTo(shape, n), Nil);
      m := n;
      while nodes[m].right != Nil
        invariant cur.Node? && cur.id == m && Linked(cur, nodes, par) && Rightmost(cur) == Rightmost(s)
        decreases Size(cur)
      {
        m := nodes[m].right;
        par := cur.id;
        cur := cur.right;
      }
    }

    /** Traverse: an in-order walk from the root that hands every value and
        its depth to `f` until `f` answers `false`.  The calls made are
        returned as the walk's observable effect. */
    method Traverse(f: (int, nat) -> bool) returns (calls: seq<Visit>)
      requires Valid()
      ensures calls == Calls(shape, 0, f)
      ensures calls <= Listing(shape, 0)
      ensures Walk(shape, 0, f) <==> calls == Listing(shape, 0) && Accepted(calls, f)
    {
      var _, c := TraverseFrom(root, 0, f, shape, Nil);
      CallsFacts(shape, 0, f);
      calls := c;
    }

    /** traverse: the left subtree, then `f` on the node, then the right
        subtree, stopping as soon as one of them reports `false`. */
    method TraverseFrom(from: int, level: nat, f: (int, nat) -> bool, ghost sub: Tree, ghost parent: int)
      returns (ok: bool, calls: seq<Visit>)
      requires Linked(sub, nodes, parent) && from == RootPtr(sub)
      ensures ok == Walk(sub, level, f) && calls == Calls(sub, level, f)
      decreases sub
    {
      if from == Nil {
        return true, [];
      }
      var n := nodes[from];
      var okLeft, left := TraverseFrom(n.left, level + 1, f, sub.left, from);
      if !okLeft {
        return false, left;
      }
      if !f(n.value, level) {
        return false, left + [(n.value, level)];
      }
      var okRight, right := TraverseFrom(n.right, level + 1, f, sub.right, from);
      return okRight, left + [(n.value, level)] + right;
    }
  }
}
