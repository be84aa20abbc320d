/**
 * How the pairs of rotations that `splay` performs add up to one step of the
 * functional `Splay`, and why the step keeps the splay's end result.
 */
module SplaySteps {
  import opened Trees
  import opened Rotations

  /** A zig-zig step is the same single rotation done twice at the
      grandparent's position, the second time on the rotated subtree. */
  lemma ZigZigMid(t: Tree, g: Path, d: Dir)
    requires IsNodePath(t, g) && Child(Sub(t, g), d).Node? && Child(Child(Sub(t, g), d), d).Node?
    ensures var G := Sub(t, g); var t1 := Replace(t, g, Zig(G, d));
      IsNodePath(t1, g) && Sub(t1, g) == Zig(G, d) &&
      Zig(G, d).id == Child(G, d).id && Child(Zig(G, d), d).Node? &&
      Child(Zig(G, d), d).id == Child(Child(G, d), d).id &&
      Replace(t1, g, Zig(Zig(G, d), d)) == Replace(t, g, ZigStep(G, d, d))
  {
    var G := Sub(t, g);
    ReplaceSub(t, g, Zig(G, d));
    ReplaceTwice(t, g, Zig(G, d), Zig(Zig(G, d), d));
  }

  /** A zig-zag step rotates the parent (one level below the grandparent)
      first and then the grandparent, in the opposite direction. */
  lemma ZigZagMid(t: Tree, g: Path, d1: Dir, d2: Dir)
    requires d1 != d2
    requires IsNodePath(t, g) && Child(Sub(t, g), d1).Node? && Child(Child(Sub(t, g), d1), d2).Node?
    ensures var G := Sub(t, g);
      var c := Zig(Child(G, d1), d2);
      var G' := WithChild(G, d1, c);
      IsNodePath(t, g + [d1]) && Sub(t, g + [d1]) == Child(G, d1) &&
      c.id == Child(Child(G, d1), d2).id &&
      Replace(t, g + [d1], c) == Replace(t, g, G') &&
      IsNodePath(Replace(t, g, G'), g) && Sub(Replace(t, g, G'), g) == G' &&
      G'.id == G.id && Child(G', d1).Node? &&
      Replace(Replace(t, g, G'), g, Zig(G', d1)) == Replace(t, g, ZigStep(G, d1, d2))
  {
    var G := Sub(t, g);
    var c := Zig(Child(G, d1), d2);
    var G' := WithChild(G, d1, c);
    SubStep(t, g, d1);
    ReplaceAppend(t, g, [d1], c);
    assert [d1][1..] == [];
    assert Replace(G, [d1], c) == G';
    ReplaceSub(t, g, G');
    ReplaceTwice(t, g, G', Zig(G', d1));
    assert Zig(G', d1) == ZigStep(G, d1, d2);
  }

  /** After one zig-zig or zig-zag step the splayed node sits where its
      grandparent was, and splaying it from there ends where splaying it from
      its old place would have. */
  lemma StepKeepsSplay(t: Tree, p: Path)
    requires Unique(t) && IsNodePath(t, p) && |p| >= 2
    ensures var g := p[..|p| - 2];
      OnPath(t, g) && Sub(t, g).Node? &&
      Child(Sub(t, g), p[|p| - 2]).Node? && Child(Child(Sub(t, g), p[|p| - 2]), p[|p| - 1]).Node? &&
      var t' := Replace(t, g, ZigStep(Sub(t, g), p[|p| - 2], p[|p| - 1]));
      Unique(t') && IsNodePath(t', g) && Sub(t', g).id == Sub(t, p).id && Sub(t, p).id in Ids(t') &&
      PathTo(t', Sub(t, p).id) == g && Splay(t', g) == Splay(t, p)
  {
    var g, d1, d2 := p[..|p| - 2], p[|p| - 2], p[|p| - 1];
    SplitPath(t, p);
    var s := ZigStep(Sub(t, g), d1, d2);
    var t' := Replace(t, g, s);
    ReplaceSub(t, g, s);
    ZigStepFacts(Sub(t, g), d1, d2);
    SubIds(t, g);
    ReplaceIds(t, g, s);
    PathToUnique(t', g);
  }

  /** The last step, a zig at the root. */
  lemma ZigKeepsSplay(t: Tree, p: Path)
    requires IsNodePath(t, p) && |p| == 1
    ensures t.Node? && Child(t, p[0]).Node? && Sub(t, p) == Child(t, p[0])
    ensures Splay(t, p) == Zig(t, p[0]) && Zig(t, p[0]).id == Sub(t, p).id
    ensures PathTo(Zig(t, p[0]), Sub(t, p).id) == [] && Splay(Zig(t, p[0]), []) == Zig(t, p[0])
  {
    SubOne(t, p);
    if p[0] == Left { RotRFacts(t); } else { RotLFacts(t); }
  }
}
