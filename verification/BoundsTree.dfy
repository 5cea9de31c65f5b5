// The draw-order index of crates/kael/src/bounds_tree.rs: a binary tree of rectangles kept in a
// growing vector, whose internal nodes cache the union and the greatest order below them.
module BoundsTrees {
  import opened Arithmetic
  import opened Geometry
  import opened Options

  datatype Node =
    | Leaf(bounds: Bounds, order: nat)
    | Internal(left: nat, right: nat, bounds: Bounds, maxOrder: nat)
  {
    function MaxOrdering(): nat {
      match this
      case Leaf(_, order) => order
      case Internal(_, _, _, maxOrder) => maxOrder
    }
  }

  function Max(a: nat, b: nat): nat {
    if a < b then b else a
  }

  // ----- The list specification -----

  /** A rectangle together with the order it was given. */
  datatype Placed = Placed(bounds: Bounds, order: nat)

  /** The greatest order among the placed rectangles that intersect `b`, 0 if there is none. */
  ghost function ListMax(placed: seq<Placed>, b: Bounds): nat {
    if placed == [] then 0
    else
      var rest := ListMax(placed[..|placed| - 1], b);
      var last := placed[|placed| - 1];
      if last.bounds.Intersects(b) then Max(rest, last.order) else rest
  }

  /** Every order is what a scan over the rectangles placed before it gives. */
  ghost predicate IsDrawing(placed: seq<Placed>) {
    placed == [] ||
    var n := |placed| - 1;
    IsDrawing(placed[..n]) && placed[n].order == ListMax(placed[..n], placed[n].bounds) + 1
  }

  lemma DrawingGrows(placed: seq<Placed>, b: Bounds)
    requires IsDrawing(placed)
    ensures IsDrawing(placed + [Placed(b, ListMax(placed, b) + 1)])
  {
    assert (placed + [Placed(b, ListMax(placed, b) + 1)])[..|placed|] == placed;
  }

  lemma {:induction false} DrawingAt(placed: seq<Placed>, k: nat)
    requires IsDrawing(placed) && k < |placed|
    ensures placed[k].order == ListMax(placed[..k], placed[k].bounds) + 1
  {
    var n := |placed| - 1;
    if k < n {
      DrawingAt(placed[..n], k);
      assert placed[..n][..k] == placed[..k];
    }
  }

  /** `m` is the greatest order among the entries that intersect `b`, and 0 exactly if none does. */
  ghost predicate IsMaxHit(entries: multiset<Placed>, b: Bounds, m: nat) {
    && (forall e :: e in entries && e.bounds.Intersects(b) ==> e.order <= m)
    && (m == 0 || exists e :: e in entries && e.bounds.Intersects(b) && e.order == m)
  }

  lemma {:induction false} ListMaxIsMaxHit(placed: seq<Placed>, b: Bounds)
    ensures IsMaxHit(multiset(placed), b, ListMax(placed, b))
  {
    if placed != [] {
      var init, last := placed[..|placed| - 1], placed[|placed| - 1];
      ListMaxIsMaxHit(init, b);
      assert placed == init + [last];
    }
  }

  // ----- The shape of the tree inside the vector -----

  datatype Shape =
    | Tip(index: nat)
    | Fork(index: nat, left: Shape, right: Shape)

  ghost function Indices(s: Shape): set<nat> {
    match s
    case Tip(i) => {i}
    case Fork(i, l, r) => {i} + Indices(l) + Indices(r)
  }

  /** The vector holds a well-formed tree of shape `s`: every node is used once, and every internal
      node caches exactly the greatest order of its children. */
  ghost predicate Holds(nodes: seq<Node>, s: Shape) {
    && s.index < |nodes|
    && match s
       case Tip(i) => nodes[i].Leaf?
       case Fork(i, l, r) =>
         && Holds(nodes, l) && Holds(nodes, r)
         && i !in Indices(l) && i !in Indices(r) && Indices(l) !! Indices(r)
         && nodes[i].Internal? && nodes[i].left == l.index && nodes[i].right == r.index
         && nodes[i].maxOrder == Max(nodes[l.index].MaxOrdering(), nodes[r.index].MaxOrdering())
  }

  /** Every internal node caches exactly the union of its children's bounds. */
  ghost predicate Hulls(nodes: seq<Node>, s: Shape) {
    && s.index < |nodes|
    && (s.Fork? ==>
          && Hulls(nodes, s.left) && Hulls(nodes, s.right)
          && nodes[s.index].bounds == nodes[s.left.index].bounds.Union(nodes[s.right.index].bounds))
  }

  /** The rectangles at the leaves. */
  ghost function Entries(nodes: seq<Node>, s: Shape): multiset<Placed> {
    match s
    case Tip(i) => if i < |nodes| && nodes[i].Leaf? then multiset{Placed(nodes[i].bounds, nodes[i].order)} else multiset{}
    case Fork(_, l, r) => Entries(nodes, l) + Entries(nodes, r)
  }

  /** The cached values cover every entry of the subtree. */
  lemma {:induction false} CachesCover(nodes: seq<Node>, s: Shape, e: Placed)
    requires Holds(nodes, s) && Hulls(nodes, s) && e in Entries(nodes, s)
    ensures Within(e.bounds, nodes[s.index].bounds)
    ensures e.order <= nodes[s.index].MaxOrdering()
  {
    match s
    case Tip(_) =>
    case Fork(_, l, r) =>
      var child := if e in Entries(nodes, l) then l else r;
      CachesCover(nodes, child, e);
      UnionIsLeast(nodes[l.index].bounds, nodes[r.index].bounds);
  }

  /** The cached order is the order of some leaf below. */
  lemma {:induction false} CachedOrderIsAttained(nodes: seq<Node>, s: Shape) returns (e: Placed)
    requires Holds(nodes, s)
    ensures e in Entries(nodes, s) && e.order == nodes[s.index].MaxOrdering()
  {
    match s
    case Tip(i) => e := Placed(nodes[i].bounds, nodes[i].order);
    case Fork(_, l, r) =>
      if nodes[l.index].MaxOrdering() < nodes[r.index].MaxOrdering() {
        e := CachedOrderIsAttained(nodes, r);
      } else {
        e := CachedOrderIsAttained(nodes, l);
      }
  }

  /** The greatest order of an intersecting leaf, by an unpruned walk over the whole subtree. */
  ghost function MaxHit(nodes: seq<Node>, s: Shape, b: Bounds): nat {
    match s
    case Tip(i) => if i < |nodes| && nodes[i].Leaf? && nodes[i].bounds.Intersects(b) then nodes[i].order else 0
    case Fork(_, l, r) => Max(MaxHit(nodes, l, b), MaxHit(nodes, r, b))
  }

  lemma {:induction false} MaxHitIsMaxHit(nodes: seq<Node>, s: Shape, b: Bounds)
    requires Holds(nodes, s)
    ensures IsMaxHit(Entries(nodes, s), b, MaxHit(nodes, s, b))
  {
    match s
    case Tip(i) =>
      assert Placed(nodes[i].bounds, nodes[i].order) in Entries(nodes, s);
    case Fork(i, l, r) =>
      MaxHitIsMaxHit(nodes, l, b);
      MaxHitIsMaxHit(nodes, r, b);
      assert forall e :: e in Entries(nodes, s) <==> e in Entries(nodes, l) || e in Entries(nodes, r);
  }

  /** A subtree none of whose entries can matter: the union misses `b`, or no order below exceeds `m`. */
  lemma PruneIsSound(nodes: seq<Node>, s: Shape, b: Bounds, m: nat)
    requires Holds(nodes, s) && Hulls(nodes, s)
    requires !b.Intersects(nodes[s.index].bounds) || nodes[s.index].MaxOrdering() <= m
    ensures MaxHit(nodes, s, b) <= m
  {
    MaxHitIsMaxHit(nodes, s, b);
    forall e | e in Entries(nodes, s) && e.bounds.Intersects(b)
      ensures e.order <= m
    {
      CachesCover(nodes, s, e);
      IntersectsIsMonotone(b, e.bounds, nodes[s.index].bounds);
    }
  }

  /** `find_max_ordering`: the pruned search, which may skip any subtree that cannot raise `best`. */
  function FindMaxOrdering(nodes: seq<Node>, ghost s: Shape, index: nat, bounds: Bounds, best: nat): (r: nat)
    requires Holds(nodes, s) && Hulls(nodes, s) && index == s.index
    ensures r == Max(best, MaxHit(nodes, s, bounds))
    decreases s
  {
    match nodes[index]
    case Leaf(nodeBounds, order) =>
      if bounds.Intersects(nodeBounds) then Max(order, best) else best
    case Internal(left, right, nodeBounds, nodeMax) =>
      if bounds.Intersects(nodeBounds) && best < nodeMax then
        assert Holds(nodes, s.left) && Holds(nodes, s.right);
        if nodes[left].MaxOrdering() > nodes[right].MaxOrdering() then
          var viaLeft := FindMaxOrdering(nodes, s.left, left, bounds, best);
          FindMaxOrdering(nodes, s.right, right, bounds, viaLeft)
        else
          var viaRight := FindMaxOrdering(nodes, s.right, right, bounds, best);
          FindMaxOrdering(nodes, s.left, left, bounds, viaRight)
      else
        PruneIsSound(nodes, s, bounds, best);
        best
  }

  // ----- The walk down and the splice -----

  /** Walking down from `s` through the internal nodes `path`, in that order, arrives at `cur`. */
  ghost predicate Descends(s: Shape, path: seq<nat>, cur: Shape) {
    if path == [] then s == cur
    else
      && s.Fork? && s.index == path[0]
      && (Descends(s.left, path[1..], cur) || Descends(s.right, path[1..], cur))
  }

  lemma {:induction false} DescendsFurther(s: Shape, path: seq<nat>, cur: Shape, child: Shape)
    requires Descends(s, path, cur) && cur.Fork? && (child == cur.left || child == cur.right)
    ensures Descends(s, path + [cur.index], child)
  {
    if path == [] {
      assert (path + [cur.index])[1..] == [];
    } else {
      assert (path + [cur.index])[1..] == path[1..] + [cur.index];
      var next := if Descends(s.left, path[1..], cur) then s.left else s.right;
      DescendsFurther(next, path[1..], cur, child);
    }
  }

  lemma {:induction false} PathIsInside(nodes: seq<Node>, s: Shape, path: seq<nat>, cur: Shape)
    requires Holds(nodes, s) && Descends(s, path, cur)
    ensures Holds(nodes, cur) && Indices(cur) <= Indices(s)
    ensures forall k :: 0 <= k < |path| ==> path[k] in Indices(s) && path[k] < |nodes| && nodes[path[k]].Internal?
  {
    if path != [] {
      var next := if Descends(s.left, path[1..], cur) then s.left else s.right;
      PathIsInside(nodes, next, path[1..], cur);
      forall k | 0 <= k < |path|
        ensures path[k] in Indices(s) && path[k] < |nodes| && nodes[path[k]].Internal?
      {
        assert k > 0 ==> path[k] == path[1..][k - 1];
      }
    }
  }

  /** Cached orders do not increase on the way down. */
  lemma {:induction false} OrdersFallAlongPath(nodes: seq<Node>, s: Shape, path: seq<nat>, cur: Shape, j: nat, k: nat)
    requires Holds(nodes, s) && Descends(s, path, cur) && j <= k < |path|
    ensures path[j] < |nodes| && path[k] < |nodes|
    ensures nodes[path[k]].MaxOrdering() <= nodes[path[j]].MaxOrdering()
    decreases s, j
  {
    PathIsInside(nodes, s, path, cur);
    if k > 0 {
      var next := if Descends(s.left, path[1..], cur) then s.left else s.right;
      assert path[k] == path[1..][k - 1];
      if j > 0 {
        assert path[j] == path[1..][j - 1];
        OrdersFallAlongPath(nodes, next, path[1..], cur, j - 1, k - 1);
      } else {
        PathIsInside(nodes, next, path[1..], cur);
        OrdersFallAlongPath(nodes, next, path[1..], cur, 0, k - 1);
        assert path[1..][0] == next.index;
      }
    }
  }

  lemma {:induction false} IndicesAreInRange(nodes: seq<Node>, s: Shape)
    requires Holds(nodes, s)
    ensures forall i :: i in Indices(s) ==> i < |nodes|
  {
    if s.Fork? {
      IndicesAreInRange(nodes, s.left);
      IndicesAreInRange(nodes, s.right);
    }
  }

  /** What lies outside a subtree has no say in it. */
  lemma {:induction false} SubtreeFrame(nodes: seq<Node>, nodes': seq<Node>, s: Shape, b: Bounds)
    requires Holds(nodes, s) && |nodes| <= |nodes'|
    requires forall i :: i in Indices(s) && i < |nodes| ==> nodes'[i] == nodes[i]
    ensures Holds(nodes', s) && Entries(nodes', s) == Entries(nodes, s)
    ensures MaxHit(nodes', s, b) == MaxHit(nodes, s, b)
    ensures Hulls(nodes, s) ==> Hulls(nodes', s)
  {
    if s.Fork? {
      SubtreeFrame(nodes, nodes', s.left, b);
      SubtreeFrame(nodes, nodes', s.right, b);
    }
  }

  /** The shape after the leaf `sibling` has been replaced by a fork over it and the new leaf. */
  ghost function Graft(s: Shape, sibling: nat, leaf: nat, parent: nat): Shape {
    match s
    case Tip(i) => if i == sibling then Fork(parent, s, Tip(leaf)) else s
    case Fork(i, l, r) => Fork(i, Graft(l, sibling, leaf, parent), Graft(r, sibling, leaf, parent))
  }

  lemma {:induction false} GraftElsewhere(s: Shape, sibling: nat, leaf: nat, parent: nat)
    requires sibling !in Indices(s)
    ensures Graft(s, sibling, leaf, parent) == s
  {
    if s.Fork? {
      GraftElsewhere(s.left, sibling, leaf, parent);
      GraftElsewhere(s.right, sibling, leaf, parent);
    }
  }

  /** `nodes'` is `nodes` after a leaf (b, order) was spliced in beside `sibling`, below `path`: links
      and orders. Only the lowest node of the path gets a new child. */
  ghost predicate IsSplice(nodes: seq<Node>, nodes': seq<Node>, s: Shape, path: seq<nat>, sibling: nat, b: Bounds, order: nat) {
    var n := |nodes|;
    && |nodes'| == n + 2 && sibling < n
    && nodes'[n] == Leaf(b, order)
    && nodes'[n + 1].Internal? && nodes'[n + 1].left == sibling && nodes'[n + 1].right == n
    && nodes'[n + 1].maxOrder == Max(nodes[sibling].MaxOrdering(), order)
    && (forall i :: i in Indices(s) && i < n && i !in path ==> nodes'[i] == nodes[i])
    && (forall k :: 0 <= k < |path| ==>
          path[k] < n && nodes[path[k]].Internal? && IsRelinked(nodes[path[k]], nodes'[path[k]], k == |path| - 1, sibling, n + 1, order))
  }

  ghost predicate IsRelinked(node: Node, node': Node, lowest: bool, sibling: nat, parent: nat, order: nat)
    requires node.Internal?
  {
    && node'.Internal?
    && node'.left == (if lowest && node.left == sibling then parent else node.left)
    && node'.right == (if lowest && node.left != sibling then parent else node.right)
    && node'.maxOrder == Max(node.maxOrder, order)
  }

  /** The same step for the cached bounds. */
  ghost predicate IsWidening(nodes: seq<Node>, nodes': seq<Node>, path: seq<nat>, sibling: nat, b: Bounds)
    requires sibling < |nodes| && |nodes'| == |nodes| + 2
  {
    && nodes'[|nodes| + 1].bounds == nodes[sibling].bounds.Union(b)
    && (forall k :: 0 <= k < |path| ==>
          path[k] < |nodes| && nodes'[path[k]].bounds == nodes[path[k]].bounds.Union(b))
  }

  /** Where a walk goes first. */
  ghost function NextOn(s: Shape, path: seq<nat>, cur: Shape): (next: Shape)
    requires s.Fork? && path != []
  {
    if Descends(s.left, path[1..], cur) then s.left else s.right
  }

  /** One level down, the child on the path sees a splice along the rest of the path ... */
  lemma SpliceOn(
    nodes: seq<Node>, nodes': seq<Node>, s: Shape, path: seq<nat>, sibling: nat, b: Bounds, order: nat)
    requires Holds(nodes, s) && path != [] && Descends(s, path, Tip(sibling))
    requires IsSplice(nodes, nodes', s, path, sibling, b, order)
    ensures var on := NextOn(s, path, Tip(sibling));
            && Holds(nodes, on) && Descends(on, path[1..], Tip(sibling))
            && IsSplice(nodes, nodes', on, path[1..], sibling, b, order)
  {
    var on, rest := NextOn(s, path, Tip(sibling)), path[1..];
    assert forall k :: 0 <= k < |rest| ==> rest[k] == path[k + 1];
    forall i | i in Indices(on) && i < |nodes| && i !in rest ensures nodes'[i] == nodes[i] {
      assert i !in path;
    }
  }

  /** ... which ends at the leaf beside which the new one is spliced in ... */
  lemma PathEndsAtSibling(nodes: seq<Node>, s: Shape, path: seq<nat>, sibling: nat)
    requires Holds(nodes, s) && Descends(s, path, Tip(sibling))
    ensures sibling in Indices(s) && (path == [] <==> s.index == sibling)
  {
    PathIsInside(nodes, s, path, Tip(sibling));
    assert sibling in Indices(Tip(sibling));
    if path != [] {
      PathIsInside(nodes, NextOn(s, path, Tip(sibling)), path[1..], Tip(sibling));
    }
  }

  /** ... and the other child sees nothing. */
  lemma SpliceOff(
    nodes: seq<Node>, nodes': seq<Node>, s: Shape, on: Shape, off: Shape, path: seq<nat>, sibling: nat, b: Bounds, order: nat)
    requires Holds(nodes, s) && path != [] && Descends(s, path, Tip(sibling))
    requires IsSplice(nodes, nodes', s, path, sibling, b, order)
    requires on == NextOn(s, path, Tip(sibling)) && off == if on == s.left then s.right else s.left
    ensures Graft(off, sibling, |nodes|, |nodes| + 1) == off && off.index != sibling
    ensures Holds(nodes', off) && (Hulls(nodes, off) ==> Hulls(nodes', off))
    ensures Entries(nodes', off) == Entries(nodes, off) && off.index < |nodes| && nodes'[off.index] == nodes[off.index]
  {
    assert s.left.index in Indices(s.left) && s.right.index in Indices(s.right);
    assert Indices(on) !! Indices(off);
    PathIsInside(nodes, on, path[1..], Tip(sibling));
    PathEndsAtSibling(nodes, on, path[1..], sibling);
    GraftElsewhere(off, sibling, |nodes|, |nodes| + 1);
    forall i | i in Indices(off) && i < |nodes| ensures nodes'[i] == nodes[i] {
      assert i !in path[1..];
      assert forall k :: 0 < k < |path| ==> path[k] == path[1..][k - 1];
      assert i !in path;
    }
    SubtreeFrame(nodes, nodes', off, b);
  }

  /** `s'` is well formed in `nodes'` and has grown from `s` by one entry and two nodes. */
  ghost predicate IsGrown(nodes: seq<Node>, nodes': seq<Node>, s: Shape, s': Shape, added: Placed) {
    && Holds(nodes', s') && s.index < |nodes|
    && Indices(s') == Indices(s) + {|nodes|, |nodes| + 1}
    && Entries(nodes', s') == Entries(nodes, s) + multiset{added}
    && nodes'[s'.index].MaxOrdering() == Max(nodes[s.index].MaxOrdering(), added.order)
  }

  /** The splice keeps links and cached orders exact and adds exactly one entry. */
  lemma {:induction false} SpliceKeepsTree(
    nodes: seq<Node>, nodes': seq<Node>, s: Shape, path: seq<nat>, sibling: nat, b: Bounds, order: nat)
    requires Holds(nodes, s) && Descends(s, path, Tip(sibling))
    requires IsSplice(nodes, nodes', s, path, sibling, b, order)
    ensures IsGrown(nodes, nodes', s, Graft(s, sibling, |nodes|, |nodes| + 1), Placed(b, order))
  {
    if path == [] {
      assert Holds(nodes', Tip(sibling)) && Holds(nodes', Tip(|nodes|));
    } else {
      SpliceOn(nodes, nodes', s, path, sibling, b, order);
      SpliceKeepsTree(nodes, nodes', NextOn(s, path, Tip(sibling)), path[1..], sibling, b, order);
      SpliceStep(nodes, nodes', s, path, sibling, b, order);
    }
  }

  lemma {:induction false} SpliceStep(
    nodes: seq<Node>, nodes': seq<Node>, s: Shape, path: seq<nat>, sibling: nat, b: Bounds, order: nat)
    requires Holds(nodes, s) && path != [] && Descends(s, path, Tip(sibling))
    requires IsSplice(nodes, nodes', s, path, sibling, b, order)
    requires var on := NextOn(s, path, Tip(sibling));
             IsGrown(nodes, nodes', on, Graft(on, sibling, |nodes|, |nodes| + 1), Placed(b, order))
    ensures IsGrown(nodes, nodes', s, Graft(s, sibling, |nodes|, |nodes| + 1), Placed(b, order))
  {
    hide Hulls, Entries, Indices, IsRelinked;
    var n := |nodes|;
    var on := NextOn(s, path, Tip(sibling));
    var off := if on == s.left then s.right else s.left;
    var on' := Graft(on, sibling, n, n + 1);
    SpliceOff(nodes, nodes', s, on, off, path, sibling, b, order);
    PathEndsAtSibling(nodes, on, path[1..], sibling);
    GraftRoot(on, sibling, n, n + 1);
    IndicesAreInRange(nodes, off);
    assert IsRelinked(nodes[path[0]], nodes'[path[0]], |path| == 1, sibling, n + 1, order);
    RelinkedFork(nodes, nodes', s, on, on', off, path, sibling, n, order);
    GrownFork(nodes, nodes', s, on, on', off, Placed(b, order));
    assert Graft(s, sibling, n, n + 1) == if on == s.left then Fork(s.index, on', off) else Fork(s.index, off, on');
  }

  lemma GraftRoot(s: Shape, sibling: nat, leaf: nat, parent: nat)
    ensures Graft(s, sibling, leaf, parent).index == if s == Tip(sibling) then parent else s.index
  {
  }

  /** A fork over one grown child has grown by the same. */
  lemma GrownFork(nodes: seq<Node>, nodes': seq<Node>, s: Shape, on: Shape, on': Shape, off: Shape, added: Placed)
    requires s.Fork? && ((on == s.left && off == s.right) || (on == s.right && off == s.left))
    requires Indices(on') == Indices(on) + {|nodes|, |nodes| + 1}
    requires Entries(nodes', on') == Entries(nodes, on) + multiset{added}
    requires Entries(nodes', off) == Entries(nodes, off)
    ensures var s' := if on == s.left then Fork(s.index, on', off) else Fork(s.index, off, on');
            && Indices(s') == Indices(s) + {|nodes|, |nodes| + 1}
            && Entries(nodes', s') == Entries(nodes, s) + multiset{added}
  {
  }

  /** A fork whose relinked children are well formed is well formed. */
  lemma RelinkedFork(nodes: seq<Node>, nodes': seq<Node>, s: Shape, on: Shape, on': Shape, off: Shape, path: seq<nat>,
                     sibling: nat, n: nat, order: nat)
    requires Holds(nodes, s) && s.Fork? && n == |nodes| && |nodes'| == n + 2
    requires (on == s.left && off == s.right) || (on == s.right && off == s.left)
    requires Holds(nodes', on') && Indices(on') == Indices(on) + {n, n + 1}
    requires Holds(nodes', off) && off.index < n && on.index < n && nodes'[off.index] == nodes[off.index]
    requires forall i :: i in Indices(off) ==> i < n
    requires nodes'[on'.index].MaxOrdering() == Max(nodes[on.index].MaxOrdering(), order)
    requires on'.index == if |path| == 1 then n + 1 else on.index
    requires (|path| == 1 <==> on.index == sibling) && off.index != sibling
    requires IsRelinked(nodes[s.index], nodes'[s.index], |path| == 1, sibling, n + 1, order)
    ensures var s' := if on == s.left then Fork(s.index, on', off) else Fork(s.index, off, on');
            && Holds(nodes', s')
            && nodes'[s.index].MaxOrdering() == Max(nodes[s.index].MaxOrdering(), order)
  {
    assert Indices(on') !! Indices(off);
  }

  lemma UnionRegroups(a: Bounds, b: Bounds, c: Bounds)
    ensures a.Union(b).Union(c) == a.Union(c).Union(b) == a.Union(b.Union(c))
  {
  }

  /** The splice keeps the cached bounds exact. */
  lemma {:induction false} SpliceKeepsHulls(
    nodes: seq<Node>, nodes': seq<Node>, s: Shape, path: seq<nat>, sibling: nat, b: Bounds, order: nat)
    requires Holds(nodes, s) && Hulls(nodes, s) && Descends(s, path, Tip(sibling))
    requires IsSplice(nodes, nodes', s, path, sibling, b, order)
    requires IsWidening(nodes, nodes', path, sibling, b)
    ensures var n := |nodes|; var s' := Graft(s, sibling, n, n + 1);
            && s'.index == (if path == [] then n + 1 else s.index)
            && Hulls(nodes', s')
            && nodes'[s'.index].bounds == nodes[s.index].bounds.Union(b)
  {
    var n := |nodes|;
    if path != [] {
      var on := NextOn(s, path, Tip(sibling));
      var off := if on == s.left then s.right else s.left;
      SpliceOn(nodes, nodes', s, path, sibling, b, order);
      SpliceOff(nodes, nodes', s, on, off, path, sibling, b, order);
      assert forall k :: 0 <= k < |path[1..]| ==> path[1..][k] == path[k + 1];
      SpliceKeepsHulls(nodes, nodes', on, path[1..], sibling, b, order);
      assert nodes'[path[0]].bounds == nodes[s.index].bounds.Union(b);
      UnionRegroups(nodes[s.left.index].bounds, nodes[s.right.index].bounds, b);
    }
  }

  // ----- The tree itself -----

  /** Tree walk and list scan see the same entries, hence the same greatest order. */
  lemma ListMaxAgrees(placed: seq<Placed>, nodes: seq<Node>, s: Shape, b: Bounds)
    requires Holds(nodes, s) && Entries(nodes, s) == multiset(placed)
    ensures MaxHit(nodes, s, b) == ListMax(placed, b)
  {
    MaxHitIsMaxHit(nodes, s, b);
    ListMaxIsMaxHit(placed, b);
  }

  /** The vector holds exactly the placed rectangles, in a tree whose caches are exact. */
  ghost predicate Represents(root: Option<nat>, nodes: seq<Node>, s: Shape, placed: seq<Placed>) {
    if root.None? then nodes == [] && placed == []
    else
      && Holds(nodes, s) && Hulls(nodes, s) && s.index == root.value
      && Entries(nodes, s) == multiset(placed)
      && (forall i :: i in Indices(s) <==> 0 <= i < |nodes|)
  }

  /** At the leaf, one last comparison settles the answer. */
  lemma SettledAtLeaf(placed: seq<Placed>, before: seq<Node>, nodes: seq<Node>, s: Shape, stack: seq<nat>,
                      sibling: nat, b: Bounds, best: nat)
    requires OnTheWay(before, nodes, s, stack, Tip(sibling), b, best)
    requires Holds(before, s) && Entries(before, s) == multiset(placed)
    ensures sibling < |nodes| && nodes[sibling].Leaf?
    ensures (if nodes[sibling].bounds.Intersects(b) then Max(best, nodes[sibling].order) else best) == ListMax(placed, b)
  {
    ListMaxAgrees(placed, before, s, b);
    assert sibling in Indices(Tip(sibling)) && sibling !in stack;
  }

  /** After a splice the vector represents one more placed rectangle. */
  lemma SpliceIsRepresented(root: nat, nodes: seq<Node>, nodes': seq<Node>, s: Shape, path: seq<nat>, sibling: nat,
                            placed: seq<Placed>, b: Bounds, order: nat)
    requires Represents(Some(root), nodes, s, placed) && Descends(s, path, Tip(sibling))
    requires IsSplice(nodes, nodes', s, path, sibling, b, order) && IsWidening(nodes, nodes', path, sibling, b)
    ensures Represents(Some(if path == [] then |nodes| + 1 else root), nodes',
                       Graft(s, sibling, |nodes|, |nodes| + 1), placed + [Placed(b, order)])
  {
    hide Holds, Hulls, Entries, Indices, Graft, Descends, IsRelinked, IsWidening;
    SpliceKeepsTree(nodes, nodes', s, path, sibling, b, order);
    SpliceKeepsHulls(nodes, nodes', s, path, sibling, b, order);
  }

  /** Where the first loop of `insert` stands: at the subtree `cur`, having widened exactly the nodes
      passed, with `best` settled for everything outside `cur`. */
  ghost predicate OnTheWay(before: seq<Node>, nodes: seq<Node>, s: Shape, stack: seq<nat>, cur: Shape, b: Bounds, best: nat) {
    && |nodes| == |before|
    && Holds(before, cur) && Hulls(before, cur) && Descends(s, stack, cur)
    && (forall k :: 0 <= k < |stack| ==> stack[k] < |nodes| && stack[k] !in Indices(cur))
    && (forall j, k :: 0 <= j < k < |stack| ==> stack[j] != stack[k])
    && (forall i :: 0 <= i < |nodes| && i !in stack ==> nodes[i] == before[i])
    && (forall k :: 0 <= k < |stack| ==> nodes[stack[k]] == Widened(before[stack[k]], b))
    && Max(best, MaxHit(before, cur, b)) == MaxHit(before, s, b)
  }

  function Widened(node: Node, b: Bounds): Node {
    node.(bounds := node.bounds.Union(b))
  }

  lemma KindIsKept(before: seq<Node>, nodes: seq<Node>, s: Shape, stack: seq<nat>, cur: Shape, b: Bounds, best: nat)
    requires OnTheWay(before, nodes, s, stack, cur, b, best)
    ensures cur.index < |nodes| && nodes[cur.index].Internal? == cur.Fork?
  {
    assert cur.index in Indices(cur) && cur.index !in stack;
  }

  /** A fork on the way links to its two children, which are other nodes. */
  lemma ForkOnTheWay(before: seq<Node>, nodes: seq<Node>, s: Shape, stack: seq<nat>, cur: Shape, b: Bounds, best: nat)
    requires OnTheWay(before, nodes, s, stack, cur, b, best) && cur.Fork?
    ensures cur.index < |nodes| && cur.left.index < |nodes| && cur.right.index < |nodes|
    ensures nodes[cur.index].Internal? && nodes[cur.index].left == cur.left.index && nodes[cur.index].right == cur.right.index
    ensures cur.left.index != cur.index && cur.right.index != cur.index && cur.left.index != cur.right.index
  {
    hide Hulls, Descends, MaxHit;
    assert cur.index in Indices(cur) && cur.index !in stack;
    assert Holds(before, cur.left) && Holds(before, cur.right);
    assert cur.left.index in Indices(cur.left) && cur.right.index in Indices(cur.right);
  }

  /** The child that is left aside can be searched: it is as it was. */
  lemma AsideIsIntact(before: seq<Node>, passed: seq<Node>, nodes: seq<Node>, s: Shape, stack: seq<nat>, cur: Shape,
                      aside: Shape, b: Bounds, best: nat)
    requires OnTheWay(before, passed, s, stack, cur, b, best)
    requires cur.Fork? && (aside == cur.left || aside == cur.right) && cur.index < |passed|
    requires nodes == passed[cur.index := Widened(passed[cur.index], b)]
    ensures Holds(nodes, aside) && Hulls(nodes, aside) && MaxHit(nodes, aside, b) == MaxHit(before, aside, b)
  {
    forall i | i in Indices(aside) && i < |before| ensures nodes[i] == before[i] {
      assert i in Indices(cur) && i != cur.index && i !in stack;
    }
    SubtreeFrame(before, nodes, aside, b);
  }

  lemma StepDown(before: seq<Node>, nodes: seq<Node>, s: Shape, stack: seq<nat>, cur: Shape, b: Bounds, best: nat,
                 next: Shape, aside: Shape, best': nat)
    requires OnTheWay(before, nodes, s, stack, cur, b, best) && cur.Fork?
    requires (next == cur.left && aside == cur.right) || (next == cur.right && aside == cur.left)
    requires best' == Max(best, MaxHit(before, aside, b))
    ensures OnTheWay(before, nodes[cur.index := Widened(nodes[cur.index], b)], s, stack + [cur.index], next, b, best')
  {
    assert cur.index in Indices(cur) && cur.index !in stack;
    DescendsFurther(s, stack, cur, next);
  }

  function Raised(node: Node, order: nat): Node {
    match node
    case Leaf(_, _) => node
    case Internal(l, r, bounds, maxOrder) => Internal(l, r, bounds, Max(maxOrder, order))
  }

  function Relinked(node: Node, sibling: nat, parent: nat): Node {
    match node
    case Leaf(_, _) => node
    case Internal(l, r, bounds, maxOrder) =>
      Internal(if l == sibling then parent else l, if l != sibling then parent else r, bounds, maxOrder)
  }

  /** The vector after the new leaf and its parent were pushed and linked in. */
  ghost function PushedAndLinked(found: seq<Node>, path: seq<nat>, sibling: nat, b: Bounds, order: nat): seq<Node>
    requires sibling < |found| && forall k :: 0 <= k < |path| ==> path[k] < |found|
  {
    var n := |found|;
    var pushed := found + [Leaf(b, order)]
                  + [Internal(sibling, n, found[sibling].bounds.Union(b), Max(found[sibling].MaxOrdering(), order))];
    if path == [] then pushed
    else var p := path[|path| - 1]; pushed[p := Relinked(pushed[p], sibling, n + 1)]
  }

  /** What the raising loop relies on: distinct ancestors whose cached orders do not grow downwards. */
  ghost predicate CanRaise(nodes: seq<Node>, path: seq<nat>) {
    && (forall k :: 0 <= k < |path| ==> path[k] < |nodes| && nodes[path[k]].Internal?)
    && (forall j, k :: 0 <= j < k < |path| ==> path[j] != path[k])
    && (forall j, k :: 0 <= j < k < |path| ==> nodes[path[k]].MaxOrdering() <= nodes[path[j]].MaxOrdering())
  }

  /** Every node of the path is raised and no other is touched. */
  ghost predicate OrdersRaised(before: seq<Node>, after: seq<Node>, path: seq<nat>, order: nat) {
    && |after| == |before|
    && (forall i :: 0 <= i < |after| && i !in path ==> after[i] == before[i])
    && (forall k :: 0 <= k < |path| ==> path[k] < |before| && after[path[k]] == Raised(before[path[k]], order))
  }

  lemma LinkedOrdersFall(root: nat, before: seq<Node>, found: seq<Node>, s: Shape, path: seq<nat>,
                         sibling: nat, placed: seq<Placed>, b: Bounds, order: nat, best: nat)
    requires Represents(Some(root), before, s, placed)
    requires OnTheWay(before, found, s, path, Tip(sibling), b, best)
    ensures |found| == |before| && sibling < |found| && sibling !in path
    ensures forall k :: 0 <= k < |path| ==> path[k] < |before| && found[path[k]].Internal?
    ensures CanRaise(PushedAndLinked(found, path, sibling, b, order), path)
  {
    PathIsInside(before, s, path, Tip(sibling));
    assert sibling in Indices(Tip(sibling));
    var linked := PushedAndLinked(found, path, sibling, b, order);
    forall k | 0 <= k < |path|
      ensures linked[path[k]].Internal? && linked[path[k]].MaxOrdering() == before[path[k]].MaxOrdering()
    {
      assert found[path[k]] == Widened(before[path[k]], b);
    }
    forall j, k | 0 <= j < k < |path|
      ensures before[path[k]].MaxOrdering() <= before[path[j]].MaxOrdering()
    {
      OrdersFallAlongPath(before, s, path, Tip(sibling), j, k);
    }
  }

  /** The four steps of an insertion - widen, push, link, raise - amount to one splice. */
  lemma AttachIsSplice(before: seq<Node>, found: seq<Node>, linked: seq<Node>, nodes: seq<Node>, s: Shape, path: seq<nat>,
                       sibling: nat, b: Bounds, order: nat, best: nat)
    requires OnTheWay(before, found, s, path, Tip(sibling), b, best) && sibling !in path
    requires forall k :: 0 <= k < |path| ==> path[k] < |before| && before[path[k]].Internal?
    requires linked == PushedAndLinked(found, path, sibling, b, order)
    requires OrdersRaised(linked, nodes, path, order)
    ensures IsSplice(before, nodes, s, path, sibling, b, order)
    ensures IsWidening(before, nodes, path, sibling, b)
  {
    var n := |before|;
    forall k | 0 <= k < |path|
      ensures IsRelinked(before[path[k]], nodes[path[k]], k == |path| - 1, sibling, n + 1, order)
      ensures nodes[path[k]].bounds == before[path[k]].bounds.Union(b)
    {
      assert found[path[k]] == Widened(before[path[k]], b);
      assert k < |path| - 1 ==> linked[path[k]] == found[path[k]];
    }
  }

  /** All of an insertion below the search: the vector represents one more placed rectangle. */
  lemma AttachIsRepresented(root: nat, before: seq<Node>, found: seq<Node>, linked: seq<Node>, nodes: seq<Node>,
                            s: Shape, path: seq<nat>, sibling: nat, placed: seq<Placed>, b: Bounds, order: nat, best: nat)
    requires Represents(Some(root), before, s, placed)
    requires OnTheWay(before, found, s, path, Tip(sibling), b, best) && sibling < |found|
    requires linked == PushedAndLinked(found, path, sibling, b, order) && OrdersRaised(linked, nodes, path, order)
    ensures Represents(Some(if path == [] then |before| + 1 else root), nodes,
                       Graft(s, sibling, |before|, |before| + 1), placed + [Placed(b, order)])
  {
    PathIsInside(before, s, path, Tip(sibling));
    assert sibling in Indices(Tip(sibling)) && sibling !in path;
    AttachIsSplice(before, found, linked, nodes, s, path, sibling, b, order, best);
    SpliceIsRepresented(root, before, nodes, s, path, sibling, placed, b, order);
  }

  /** The left child is preferred exactly if the least rectangle around it and the new one has the smaller half
      perimeter. */
  ghost predicate IsCheaperChoice(goesLeft: bool, b: Bounds, left: Bounds, right: Bounds) {
    forall l, r :: IsCost(l, b, left) && IsCost(r, b, right) ==> (goesLeft <==> l < r)
  }

  /** What is compared are the rectangles after the insertion and not how much they grow: here the left one is preferred
      although it would grow and the right one would not. */
  lemma TheCheaperChildMayGrowMore()
    ensures var b, left, right := Square(4.0, 1.0), Square(0.0, 1.0), Square(0.0, 10.0);
            && IsCheaperChoice(true, b, left, right)
            && b.Union(left).HalfPerimeter() - left.HalfPerimeter() > 0.0
            && b.Union(right).HalfPerimeter() - right.HalfPerimeter() == 0.0
  {
    UnionCosts(Square(4.0, 1.0), Square(0.0, 1.0));
    UnionCosts(Square(4.0, 1.0), Square(0.0, 10.0));
  }

  /** The preferred child is one that grows least. */
  ghost predicate GrowsLeast(goesLeft: bool, b: Bounds, left: Bounds, right: Bounds) {
    forall l, r :: IsCost(l, b, left) && IsCost(r, b, right) ==>
      if goesLeft then l - left.HalfPerimeter() <= r - right.HalfPerimeter()
      else r - right.HalfPerimeter() <= l - left.HalfPerimeter()
  }

  /** Whatever is inserted, the choice is one of least growth. */
  ghost predicate AlwaysGrowsLeast(left: Bounds, right: Bounds) {
    forall b, goesLeft :: IsCheaperChoice(goesLeft, b, left, right) ==> GrowsLeast(goesLeft, b, left, right)
  }

  /** On the way from a rectangle to its union with another, the one grows steadily and the other is at the union. */
  lemma GrowingIntoUnion(a: Bounds, c: Bounds, s: real) returns (b: Bounds)
    requires 0.0 <= s <= 1.0
    ensures b.Union(a).HalfPerimeter()
         == a.HalfPerimeter() + Times(s, a.Union(c).HalfPerimeter() - a.HalfPerimeter())
    ensures b.Union(c).HalfPerimeter() == a.Union(c).HalfPerimeter()
  {
    hide Times;
    var u, o, e := a.Union(c), a.origin, a.BottomRight();
    UnionIsLeast(a, c);
    var left, top, right, bottom := o.x - u.origin.x, o.y - u.origin.y, u.BottomRight().x - e.x, u.BottomRight().y - e.y;
    TimesBelow(s, left);
    TimesBelow(s, top);
    TimesBelow(s, right);
    TimesBelow(s, bottom);
    FourProducts(s, left, top, right, bottom);
    b := FromCorners(Point(o.x - Times(s, left), o.y - Times(s, top)), Point(e.x + Times(s, right), e.y + Times(s, bottom)));
    EnclosedUnions(a, b, c);
  }

  lemma EnclosedUnions(a: Bounds, b: Bounds, c: Bounds)
    requires Within(a, b) && Within(b, a.Union(c))
    ensures b.Union(a) == b && b.Union(c) == a.Union(c)
  {
  }

  lemma FourProducts(s: real, a: real, b: real, c: real, d: real)
    ensures Times(s, a) + Times(s, b) + Times(s, c) + Times(s, d) == Times(s, a + b + c + d)
  {
  }

  /** If `a` is the smaller box, something can be inserted that prefers `a` and makes it grow more. */
  lemma SmallerBoxGrowsMore(a: Bounds, c: Bounds) returns (b: Bounds)
    requires a.HalfPerimeter() < c.HalfPerimeter()
    ensures b.Union(a).HalfPerimeter() < b.Union(c).HalfPerimeter()
    ensures b.Union(a).HalfPerimeter() - a.HalfPerimeter() > b.Union(c).HalfPerimeter() - c.HalfPerimeter()
  {
    UnionIsLeast(a, c);
    var gap, room := c.HalfPerimeter() - a.HalfPerimeter(), a.Union(c).HalfPerimeter() - a.HalfPerimeter();
    var s := 1.0 - gap / 2.0 / room;
    HalfOfShare(gap, room, s);
    b := GrowingIntoUnion(a, c, s);
  }

  lemma HalfOfShare(gap: real, room: real, s: real)
    requires 0.0 < gap <= room && s == 1.0 - gap / 2.0 / room
    ensures 0.0 <= s <= 1.0 && Times(s, room) == room - gap / 2.0
  {
    var part := gap / 2.0 / room;
    assert part * room == gap / 2.0;
    if part > 1.0 {
      ProductIsPositive(part - 1.0, room);
    } else if part < 0.0 {
      ProductIsPositive(-part, room);
    }
  }

  /** The choice is one of least growth for everything that may be inserted if and only if the two boxes have the same
      half perimeter. */
  lemma LeastGrowthExactly(left: Bounds, right: Bounds)
    ensures AlwaysGrowsLeast(left, right) <==> left.HalfPerimeter() == right.HalfPerimeter()
  {
    hide IsCost;
    if left.HalfPerimeter() == right.HalfPerimeter() {
      forall b, goesLeft | IsCheaperChoice(goesLeft, b, left, right) ensures GrowsLeast(goesLeft, b, left, right) {
        UnionCosts(b, left);
        UnionCosts(b, right);
      }
    } else {
      var b;
      var goesLeft := left.HalfPerimeter() < right.HalfPerimeter();
      if goesLeft {
        b := SmallerBoxGrowsMore(left, right);
      } else {
        b := SmallerBoxGrowsMore(right, left);
      }
      UnionCosts(b, left);
      UnionCosts(b, right);
      assert IsCost(b.Union(left).HalfPerimeter(), b, left) && IsCost(b.Union(right).HalfPerimeter(), b, right);
      assert IsCheaperChoice(goesLeft, b, left, right) && !GrowsLeast(goesLeft, b, left, right);
    }
  }

  ghost function Square(at: real, side: real): Bounds {
    Bounds(Point(at, at), Size(side, side))
  }

  class BoundsTree {
    var root: Option<nat>
    var nodes: seq<Node>
    var stack: seq<nat>
    ghost var shape: Shape
    ghost var placed: seq<Placed>  // everything inserted since the last clear, in order

    ghost predicate Valid()
      reads this
    {
      stack == [] && Represents(root, nodes, shape, placed) && IsDrawing(placed)
    }

    constructor ()
      ensures Valid() && placed == []
    {
      root, nodes, stack := None, [], [];
      placed := [];
    }

    method Clear()
      modifies this
      ensures Valid() && placed == []
    {
      root := None;
      nodes := [];
      stack := [];
      placed := [];
    }

    method PushLeaf(bounds: Bounds, order: nat) returns (index: nat)
      modifies this`nodes
      ensures nodes == old(nodes) + [Leaf(bounds, order)] && index == |old(nodes)|
    {
      nodes := nodes + [Leaf(bounds, order)];
      index := |nodes| - 1;
    }

    method PushInternal(left: nat, right: nat) returns (index: nat)
      requires left < |nodes| && right < |nodes|
      modifies this`nodes
      ensures index == |old(nodes)|
      ensures nodes == old(nodes) + [Internal(left, right, old(nodes[left].bounds.Union(nodes[right].bounds)),
                                              old(Max(nodes[left].MaxOrdering(), nodes[right].MaxOrdering())))]
    {
      var newBounds := nodes[left].bounds.Union(nodes[right].bounds);
      var maxOrdering := Max(nodes[left].MaxOrdering(), nodes[right].MaxOrdering());
      nodes := nodes + [Internal(left, right, newBounds, maxOrdering)];
      index := |nodes| - 1;
    }

    /** The cost comparison that picks a child. No result about orders depends on its outcome. */
    method GoesLeft(b: Bounds, left: nat, right: nat) returns (yes: bool)
      requires left < |nodes| && right < |nodes|
      ensures IsCheaperChoice(yes, b, nodes[left].bounds, nodes[right].bounds)
    {
      UnionCosts(b, nodes[left].bounds);
      UnionCosts(b, nodes[right].bounds);
      var leftCost := b.Union(nodes[left].bounds).HalfPerimeter();
      var rightCost := b.Union(nodes[right].bounds).HalfPerimeter();
      yes := leftCost < rightCost;
    }

    /** One round of the first loop of `insert`: widen the node, choose a child by cost, and search the
        subtree that is left aside. */
    method StepInto(index: nat, b: Bounds, sofar: nat, ghost before: seq<Node>, ghost cur: Shape)
      returns (next: nat, best: nat, ghost child: Shape)
      requires OnTheWay(before, nodes, shape, stack, cur, b, sofar)
      requires cur.index == index && cur.Fork?
      modifies this`nodes, this`stack
      ensures OnTheWay(before, nodes, shape, stack, child, b, best)
      ensures child.index == next && (child == cur.left || child == cur.right)
      ensures cur.left.index < |old(nodes)| && cur.right.index < |old(nodes)|
      ensures IsCheaperChoice(child == cur.left, b, old(nodes)[cur.left.index].bounds, old(nodes)[cur.right.index].bounds)
    {
      hide IsCheaperChoice, OnTheWay, Holds, Hulls;
      ghost var passed, path := nodes, stack;
      ForkOnTheWay(before, nodes, shape, stack, cur, b, sofar);
      var left, right := nodes[index].left, nodes[index].right;
      nodes := nodes[index := Widened(nodes[index], b)];
      stack := stack + [index];
      var goesLeft := GoesLeft(b, left, right);
      child := if goesLeft then cur.left else cur.right;
      ghost var aside := if goesLeft then cur.right else cur.left;
      AsideIsIntact(before, passed, nodes, shape, path, cur, aside, b, sofar);
      if goesLeft {
        best := FindMaxOrdering(nodes, aside, right, b, sofar);
        next := left;
      } else {
        best := FindMaxOrdering(nodes, aside, left, b, sofar);
        next := right;
      }
      StepDown(before, passed, shape, path, cur, b, sofar, child, aside, best);
    }

    /** The first loop of `insert`: walk to a leaf. */
    method FindSibling(b: Bounds) returns (sibling: nat, best: nat)
      requires stack == [] && root.Some? && Represents(root, nodes, shape, placed)
      modifies this`nodes, this`stack
      ensures OnTheWay(old(nodes), nodes, shape, stack, Tip(sibling), b, best)
    {
      ghost var cur := shape;
      best := 0;
      var index := root.value;
      while nodes[index].Internal?
        invariant cur.index == index && index < |nodes| && nodes[index].Internal? == cur.Fork?
        invariant OnTheWay(old(nodes), nodes, shape, stack, cur, b, best)
        decreases cur
      {
        index, best, cur := StepInto(index, b, best, old(nodes), cur);
        KindIsKept(old(nodes), nodes, shape, stack, cur, b, best);
      }
      sibling := index;
    }

    /** The last loop of `insert`: raise the cached orders from the bottom up, stopping at the first
        ancestor that is high enough already. Stopping there skips nothing that needed raising. */
    method RaiseOrders(order: nat)
      requires CanRaise(nodes, stack)
      modifies this`nodes, this`stack
      ensures stack == [] && OrdersRaised(old(nodes), nodes, old(stack), order)
    {
      var k := |stack|;
      while k > 0
        invariant 0 <= k <= |stack| && |nodes| == |old(nodes)| && stack == old(stack)
        invariant forall i :: 0 <= i < |nodes| && i !in stack ==> nodes[i] == old(nodes)[i]
        invariant forall j :: 0 <= j < k ==> nodes[stack[j]] == old(nodes)[stack[j]]
        invariant forall j :: k <= j < |stack| ==> nodes[stack[j]] == Raised(old(nodes)[stack[j]], order)
      {
        var nodeIndex := stack[k - 1];
        if nodes[nodeIndex].maxOrder >= order {
          break;
        }
        nodes := nodes[nodeIndex := nodes[nodeIndex].(maxOrder := order)];
        k := k - 1;
      }
      stack := [];
    }

    /** A new parent takes the sibling's place under the lowest node of the path, or becomes the root. */
    method Link(sibling: nat, newParent: nat)
      requires stack != [] ==> stack[|stack| - 1] < |nodes| && nodes[stack[|stack| - 1]].Internal?
      modifies this`root, this`nodes
      ensures root == if stack == [] then Some(newParent) else old(root)
      ensures nodes == if stack == [] then old(nodes)
                       else var p := stack[|stack| - 1]; old(nodes)[p := Relinked(old(nodes)[p], sibling, newParent)]
    {
      if stack != [] {
        var oldParent := stack[|stack| - 1];
        if nodes[oldParent].left == sibling {
          nodes := nodes[oldParent := nodes[oldParent].(left := newParent)];
        } else {
          nodes := nodes[oldParent := nodes[oldParent].(right := newParent)];
        }
      } else {
        root := Some(newParent);
      }
    }

    /** Push the new leaf and its parent and link them in. */
    method PushAndLink(sibling: nat, b: Bounds, order: nat)
      requires sibling < |nodes| && sibling !in stack
      requires forall k :: 0 <= k < |stack| ==> stack[k] < |nodes| && nodes[stack[k]].Internal?
      modifies this`root, this`nodes
      ensures root == if stack == [] then Some(|old(nodes)| + 1) else old(root)
      ensures nodes == PushedAndLinked(old(nodes), stack, sibling, b, order)
    {
      var newNode := PushLeaf(b, order);
      var newParent := PushInternal(sibling, newNode);
      Link(sibling, newParent);
    }

    /** Attach the new leaf beside `sibling` and raise the orders above. */
    method Attach(sibling: nat, b: Bounds, order: nat, ghost before: seq<Node>, ghost best: nat)
      requires OnTheWay(before, nodes, shape, stack, Tip(sibling), b, best)
      requires root.Some? && Represents(root, before, shape, placed)
      modifies this`root, this`nodes, this`stack, this`shape
      ensures stack == []
      ensures Represents(root, nodes, shape, placed + [Placed(b, order)])
    {
      hide *;
      ghost var path, found, top := stack, nodes, root.value;
      LinkedOrdersFall(top, before, found, shape, path, sibling, placed, b, order, best);
      PushAndLink(sibling, b, order);
      ghost var linked := nodes;
      RaiseOrders(order);
      AttachIsRepresented(top, before, found, linked, nodes, shape, path, sibling, placed, b, order, best);
      shape := Graft(shape, sibling, |before|, |before| + 1);
    }

    /** The search half of `insert`: where the new leaf goes, and its order. */
    method Search(b: Bounds) returns (sibling: nat, order: nat, ghost best: nat)
      requires stack == [] && root.Some? && Represents(root, nodes, shape, placed)
      modifies this`nodes, this`stack
      ensures OnTheWay(old(nodes), nodes, shape, stack, Tip(sibling), b, best)
      ensures order == ListMax(placed, b) + 1
    {
      ghost var before := nodes;
      var maxIntersecting: nat;
      sibling, maxIntersecting := FindSibling(b);
      best := maxIntersecting;
      SettledAtLeaf(placed, before, nodes, shape, stack, sibling, b, best);
      if nodes[sibling].bounds.Intersects(b) {
        maxIntersecting := Max(maxIntersecting, nodes[sibling].order);
      }
      order := maxIntersecting + 1;
    }

    /** An empty tree makes the new leaf its root. */
    method InsertFirst(b: Bounds)
      requires stack == [] && nodes == []
      modifies this`root, this`nodes, this`shape
      ensures Represents(root, nodes, shape, [Placed(b, 1)])
    {
      var newNode := PushLeaf(b, 1);
      root := Some(newNode);
      shape := Tip(newNode);
    }

    method InsertNode(b: Bounds) returns (order: nat)
      requires stack == [] && Represents(root, nodes, shape, placed)
      modifies this`root, this`nodes, this`stack, this`shape
      ensures stack == [] && order == ListMax(placed, b) + 1
      ensures Represents(root, nodes, shape, placed + [Placed(b, order)])
    {
      if root.None? {
        InsertFirst(b);
        order := 1;
      } else {
        ghost var before := nodes;
        var sibling: nat;
        ghost var best: nat;
        sibling, order, best := Search(b);
        Attach(sibling, b, order, before, best);
      }
    }

    /** `insert` returns what a scan over every earlier rectangle would return. */
    method Insert(b: Bounds) returns (order: nat)
      requires Valid()
      modifies this
      ensures Valid() && placed == old(placed) + [Placed(b, order)]
      ensures order == ListMax(old(placed), b) + 1
    {
      order := InsertNode(b);
      DrawingGrows(placed, b);
      placed := placed + [Placed(b, order)];
    }
  }

  /** Drawing a whole scene into a cleared tree. */
  method DrawAll(tree: BoundsTree, rects: seq<Bounds>) returns (orders: seq<nat>)
    modifies tree
    ensures tree.Valid() && |orders| == |tree.placed| == |rects|
    ensures forall k :: 0 <= k < |rects| ==> tree.placed[k] == Placed(rects[k], orders[k])
  {
    tree.Clear();
    orders := [];
    for i := 0 to |rects|
      invariant tree.Valid() && |orders| == |tree.placed| == i
      invariant forall k :: 0 <= k < i ==> tree.placed[k] == Placed(rects[k], orders[k])
    {
      var order := tree.Insert(rects[i]);
      orders := orders + [order];
    }
  }

  // ----- What the orders mean -----

  lemma {:induction false} ListMaxCovers(placed: seq<Placed>, b: Bounds, i: nat)
    requires i < |placed| && placed[i].bounds.Intersects(b)
    ensures placed[i].order <= ListMax(placed, b)
  {
    if i < |placed| - 1 {
      ListMaxCovers(placed[..|placed| - 1], b, i);
    }
  }

  lemma {:induction false} ListMaxIsAttained(placed: seq<Placed>, b: Bounds) returns (i: nat)
    requires ListMax(placed, b) > 0
    ensures i < |placed| && placed[i].bounds.Intersects(b) && placed[i].order == ListMax(placed, b)
  {
    var init, last := placed[..|placed| - 1], placed[|placed| - 1];
    if last.bounds.Intersects(b) && ListMax(init, b) <= last.order {
      i := |placed| - 1;
    } else {
      i := ListMaxIsAttained(init, b);
    }
  }

  /** Of two overlapping rectangles the later one is drawn strictly above the earlier one. */
  lemma LaterIsAbove(placed: seq<Placed>, i: nat, j: nat)
    requires IsDrawing(placed) && i < j < |placed| && placed[i].bounds.Intersects(placed[j].bounds)
    ensures placed[i].order < placed[j].order
  {
    DrawingAt(placed, j);
    ListMaxCovers(placed[..j], placed[j].bounds, i);
  }

  /** A pile ending at rectangle `j`: each one was drawn after the one below it and overlaps it. */
  ghost predicate IsPile(placed: seq<Placed>, pile: seq<nat>, j: nat) {
    && pile != [] && pile[|pile| - 1] == j
    && (forall k :: 0 <= k < |pile| ==> pile[k] < |placed|)
    && (forall k :: 0 < k < |pile| ==>
          pile[k - 1] < pile[k] && placed[pile[k - 1]].bounds.Intersects(placed[pile[k]].bounds))
  }

  lemma {:induction false} PilesAreNoHigher(placed: seq<Placed>, pile: seq<nat>, j: nat)
    requires IsDrawing(placed) && IsPile(placed, pile, j)
    ensures |pile| <= placed[j].order
    decreases |pile|
  {
    DrawingAt(placed, j);
    if |pile| > 1 {
      var below := pile[..|pile| - 1];
      PilesAreNoHigher(placed, below, below[|below| - 1]);
      LaterIsAbove(placed, below[|below| - 1], j);
    }
  }

  lemma {:induction false} TallestPile(placed: seq<Placed>, j: nat) returns (pile: seq<nat>)
    requires IsDrawing(placed) && j < |placed|
    ensures IsPile(placed, pile, j) && |pile| == placed[j].order
  {
    DrawingAt(placed, j);
    if ListMax(placed[..j], placed[j].bounds) == 0 {
      pile := [j];
    } else {
      var i := ListMaxIsAttained(placed[..j], placed[j].bounds);
      assert placed[..j][i] == placed[i];
      var below := TallestPile(placed, i);
      pile := below + [j];
      assert |pile| == placed[i].order + 1 == placed[j].order;
    }
  }

  /** The order of a rectangle is exactly the height of the tallest pile below and including it; no
      order is wasted, and since a pile of height h needs h rectangles, orders fit 32 bits as long as
      fewer than 2^32 rectangles are drawn. */
  lemma OrderIsPileHeight(placed: seq<Placed>, j: nat)
    requires IsDrawing(placed) && j < |placed|
    ensures exists pile :: IsPile(placed, pile, j) && |pile| == placed[j].order
    ensures forall pile :: IsPile(placed, pile, j) ==> |pile| <= placed[j].order
    ensures 1 <= placed[j].order <= j + 1
  {
    var pile := TallestPile(placed, j);
    PileIsShort(placed, pile, j);
    forall other | IsPile(placed, other, j) ensures |other| <= placed[j].order {
      PilesAreNoHigher(placed, other, j);
    }
  }

  lemma {:induction false} PileIsShort(placed: seq<Placed>, pile: seq<nat>, j: nat)
    requires IsPile(placed, pile, j)
    ensures |pile| <= j + 1
    decreases |pile|
  {
    if |pile| > 1 {
      var below := pile[..|pile| - 1];
      PileIsShort(placed, below, below[|below| - 1]);
    }
  }

  // ----- What the orders mean on the plane -----

  /** Where two rectangles share an interior point, the later one is drawn strictly above the earlier one. */
  lemma LaterIsAboveWhereTheyMeet(placed: seq<Placed>, i: nat, j: nat, p: Point)
    requires IsDrawing(placed) && i < j < |placed| && Inside(p, placed[i].bounds) && Inside(p, placed[j].bounds)
    ensures placed[i].order < placed[j].order
  {
    SharingIsIntersecting(placed[i].bounds, placed[j].bounds);
    LaterIsAbove(placed, i, j);
  }

  /** A pile in which each rectangle shares an interior point with the one below it. */
  ghost predicate IsMeetingPile(placed: seq<Placed>, pile: seq<nat>, j: nat) {
    && pile != [] && pile[|pile| - 1] == j
    && (forall k :: 0 <= k < |pile| ==> pile[k] < |placed|)
    && (forall k :: 0 < k < |pile| ==>
          pile[k - 1] < pile[k] && SharePoint(placed[pile[k - 1]].bounds, placed[pile[k]].bounds))
  }

  lemma PilesMeet(placed: seq<Placed>, pile: seq<nat>, j: nat)
    requires forall i :: 0 <= i < |placed| ==> IsProper(placed[i].bounds)
    ensures IsMeetingPile(placed, pile, j) <==> IsPile(placed, pile, j)
  {
    hide SharePoint, IsProper;
    if forall k :: 0 <= k < |pile| ==> pile[k] < |placed| {
      forall k | 0 < k < |pile|
        ensures SharePoint(placed[pile[k - 1]].bounds, placed[pile[k]].bounds)
           <==> placed[pile[k - 1]].bounds.Intersects(placed[pile[k]].bounds)
      {
        SharingIsIntersecting(placed[pile[k - 1]].bounds, placed[pile[k]].bounds);
      }
    }
  }

  /** In a scene of rectangles with positive sizes, the order of each is exactly the height of the tallest pile of
      rectangles, in drawing order and each sharing an interior point with the one below, that ends with it. */
  lemma OrderIsMeetingPileHeight(placed: seq<Placed>, j: nat)
    requires IsDrawing(placed) && j < |placed| && forall i :: 0 <= i < |placed| ==> IsProper(placed[i].bounds)
    ensures exists pile :: IsMeetingPile(placed, pile, j) && |pile| == placed[j].order
    ensures forall pile :: IsMeetingPile(placed, pile, j) ==> |pile| <= placed[j].order
  {
    var pile := TallestPile(placed, j);
    PilesMeet(placed, pile, j);
    forall other | IsMeetingPile(placed, other, j) ensures |other| <= placed[j].order {
      PilesMeet(placed, other, j);
      PilesAreNoHigher(placed, other, j);
    }
  }
}
