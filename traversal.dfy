/**
 * In-order traversal with depths and an early-stopping callback.  The
 * callback's only observable effect here is the sequence of calls it
 * receives, so a traversal is described by that sequence and by the
 * boolean the recursive walk returns.
 */
module Traversal {
  import opened Trees

  /** A callback invocation: the value and the depth (the root is at 0). */
  type Visit = (int, nat)

  /** Every node as `(value, depth)`, in in-order: what a callback that never
      stops would be given. */
  function Listing(t: Tree, level: nat): seq<Visit>
  {
    match t
    case Leaf => []
    case Node(l, _, x, r) => Listing(l, level + 1) + [(x, level)] + Listing(r, level + 1)
  }

  /** traverse's result: the left subtree, then the node, then the right
      subtree, stopping at the first `false`. */
  function Walk(t: Tree, level: nat, f: (int, nat) -> bool): bool
  {
    match t
    case Leaf => true
    case Node(l, _, x, r) => Walk(l, level + 1, f) && f(x, level) && Walk(r, level + 1, f)
  }

  /** The invocations of the callback that the walk makes, in order. */
  function Calls(t: Tree, level: nat, f: (int, nat) -> bool): seq<Visit>
  {
    match t
    case Leaf => []
    case Node(l, _, x, r) =>
      if !Walk(l, level + 1, f) then Calls(l, level + 1, f)
      else if !f(x, level) then Calls(l, level + 1, f) + [(x, level)]
      else Calls(l, level + 1, f) + [(x, level)] + Calls(r, level + 1, f)
  }

  /** Every visit in `c` was answered `true`. */
  predicate Accepted(c: seq<Visit>, f: (int, nat) -> bool)
  {
    forall i :: 0 <= i < |c| ==> f(c[i].0, c[i].1)
  }

  /** The calls are a prefix of the listing.  The walk succeeds exactly when
      it visited every node and every call answered `true`; otherwise the
      last call answered `false` and all the earlier ones `true`. */
  lemma CallsFacts(t: Tree, level: nat, f: (int, nat) -> bool)
    ensures var c := Calls(t, level, f);
      c <= Listing(t, level) &&
      (Walk(t, level, f) <==> c == Listing(t, level) && Accepted(c, f)) &&
      (!Walk(t, level, f) ==> |c| > 0 && Accepted(c[..|c| - 1], f) && !f(c[|c| - 1].0, c[|c| - 1].1))
  {
    CallsPrefix(t, level, f);
    CallsAnswers(t, level, f);
  }

  /** The calls are a prefix of the listing, the whole of it when the walk
      succeeds. */
  lemma {:induction false} CallsPrefix(t: Tree, level: nat, f: (int, nat) -> bool)
    ensures Calls(t, level, f) <= Listing(t, level)
    ensures Walk(t, level, f) ==> Calls(t, level, f) == Listing(t, level)
  {
    match t
    case Leaf =>
    case Node(l, _, x, r) =>
      CallsPrefix(l, level + 1, f);
      CallsPrefix(r, level + 1, f);
      var cl, cr := Calls(l, level + 1, f), Calls(r, level + 1, f);
      var ll, lr := Listing(l, level + 1), Listing(r, level + 1);
      var c := Calls(t, level, f);
      if !Walk(l, level + 1, f) {
        PrefixExtend(cl, ll, [(x, level)] + lr);
        assert ll + [(x, level)] + lr == ll + ([(x, level)] + lr);
      } else if !f(x, level) {
        assert c == cl + [(x, level)];
      } else {
        PrefixJoin(cl + [(x, level)], cr, lr);
      }
  }

  /** Every call but the last answered `true`; the last answered `false`
      exactly when the walk failed. */
  lemma {:induction false} CallsAnswers(t: Tree, level: nat, f: (int, nat) -> bool)
    ensures var c := Calls(t, level, f);
      (Walk(t, level, f) ==> Accepted(c, f)) &&
      (!Walk(t, level, f) ==> |c| > 0 && Accepted(c[..|c| - 1], f) && !f(c[|c| - 1].0, c[|c| - 1].1))
  {
    match t
    case Leaf =>
    case Node(l, _, x, r) =>
      CallsAnswers(l, level + 1, f);
      CallsAnswers(r, level + 1, f);
      var cl, cr := Calls(l, level + 1, f), Calls(r, level + 1, f);
      var c := Calls(t, level, f);
      if !Walk(l, level + 1, f) {
        assert c == cl;
      } else if !f(x, level) {
        assert c == cl + [(x, level)];
        assert c[..|c| - 1] == cl;
      } else {
        assert c == cl + [(x, level)] + cr;
        AcceptedJoin(cl + [(x, level)], cr, f);
        if !Walk(r, level + 1, f) {
          assert c[..|c| - 1] == cl + [(x, level)] + cr[..|cr| - 1];
          AcceptedJoin(cl + [(x, level)], cr[..|cr| - 1], f);
        }
      }
  }

  lemma AcceptedJoin(a: seq<Visit>, b: seq<Visit>, f: (int, nat) -> bool)
    ensures Accepted(a + b, f) <==> Accepted(a, f) && Accepted(b, f)
  {
    if Accepted(a, f) && Accepted(b, f) {
      forall i | 0 <= i < |a + b| ensures f((a + b)[i].0, (a + b)[i].1) {
        if i < |a| { assert (a + b)[i] == a[i]; } else { assert (a + b)[i] == b[i - |a|]; }
      }
    }
    if Accepted(a + b, f) {
      forall i | 0 <= i < |a| ensures f(a[i].0, a[i].1) { assert (a + b)[i] == a[i]; }
      forall i | 0 <= i < |b| ensures f(b[i].0, b[i].1) { assert (a + b)[|a| + i] == b[i]; }
    }
  }

  lemma PrefixJoin(a: seq<Visit>, b: seq<Visit>, c: seq<Visit>)
    requires b <= c
    ensures a + b <= a + c
  {
    assert forall i :: 0 <= i < |b| ==> (a + b)[|a| + i] == b[i] && (a + c)[|a| + i] == c[i];
    assert forall i :: 0 <= i < |a| ==> (a + b)[i] == a[i] && (a + c)[i] == a[i];
  }

  lemma PrefixExtend(a: seq<Visit>, b: seq<Visit>, c: seq<Visit>)
    requires a <= b
    ensures a <= b + c
  {
    assert forall i :: 0 <= i < |a| ==> (b + c)[i] == b[i];
  }

  /** A callback that always answers `true` is called once for every node,
      in in-order: it is given exactly the listing. */
  lemma {:induction false} WalkTrue(t: Tree, level: nat, f: (int, nat) -> bool)
    requires forall x: int, d: nat :: f(x, d)
    ensures Walk(t, level, f) && Calls(t, level, f) == Listing(t, level)
  {
    match t
    case Leaf =>
    case Node(l, _, x, r) =>
      WalkTrue(l, level + 1, f);
      WalkTrue(r, level + 1, f);
  }

  /** The listing reports the values in in-order. */
  lemma {:induction false} ListingValues(t: Tree, level: nat)
    ensures |Listing(t, level)| == |InOrder(t)|
    ensures forall i :: 0 <= i < |InOrder(t)| ==> Listing(t, level)[i].0 == InOrder(t)[i].value
  {
    match t
    case Leaf =>
    case Node(l, i, x, r) =>
      ListingValues(l, level + 1);
      ListingValues(r, level + 1);
      var a, b := InOrder(l), InOrder(r);
      forall k | 0 <= k < |InOrder(t)| ensures Listing(t, level)[k].0 == InOrder(t)[k].value {
        if k > |a| {
          assert Listing(t, level)[k] == Listing(r, level + 1)[k - |a| - 1];
          assert InOrder(t)[k] == b[k - |a| - 1];
        }
      }
  }
}
