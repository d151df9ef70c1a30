/** The walk of the bold command: `toggleBoldLogic` and `checkNode` (rte.js:179-237).
    The children of the range's common ancestor are checked one by one; a child the
    range contains is toggled, one it misses is left alone, and one it crosses is
    searched in turn. */
module BoldWalk {
  import opened Wrappers
  import opened Dom
  import opened Edit
  import opened Boundary
  import opened Sanitizer
  import opened Frame
  import opened Bold

  /** `WithinStep` for the child `c` at index `i` of `p`. */
  lemma WithinChild(t: Tree, u: Tree, v: Tree, p: NodeId, i: nat, c: NodeId)
    requires Valid(t) && IsElement(t, p) && Within(t, u, p, 0, i)
    requires Valid(u) && c in u.parent && u.parent[c] == p && Index(u, c) == i
    requires Within(u, v, u.parent[c], Index(u, c), Index(u, c) + 1)
    ensures Within(t, v, p, 0, i + 1)
  {
    WithinAt(u, v, p, i, c);
    WithinStep(t, u, v, p, i);
  }

  /** The frame `checkNode` states for a child, written with the child's place. */
  lemma WithinAt(u: Tree, v: Tree, node: NodeId, i: nat, c: NodeId)
    requires Valid(u) && c in u.parent && u.parent[c] == node && Index(u, c) == i
    requires Within(u, v, u.parent[c], Index(u, c), Index(u, c) + 1)
    ensures Within(u, v, node, i, i + 1)
  {
  }

  /** What the walk leaves at the place of the attached node `c` of `t` in its parent:
      the toggled node when the range contains `c`; `c` with its subtree untouched
      when the range misses it; and when the range crosses it, `c` itself, an element
      keeping everything but its child list, whose children are each visited in turn. */
  ghost predicate Visited(t: Tree, r: Tree, rng: Range, c: NodeId)
    requires Valid(t) && Valid(r) && c in t.parent && InTree(t, rng.start) && InTree(t, rng.end)
    decreases t.rank[c], 1
  {
    var p, k := t.parent[c], Index(t, c);
    && IsElement(r, p) && k < |Children(r, p)|
    && (match Classify(t, rng, c)
        case Contained => ToggledAt(t, r, c, Children(r, p)[k])
        case Disjoint => Children(r, p)[k] == c && Untouched(t, r, c)
        case Crossing =>
          && Children(r, p)[k] == c && c in r.nodes
          && if IsElement(t, c) then
               && IsElement(r, c) && r.nodes[c] == t.nodes[c].(children := Children(r, c))
               && |Children(r, c)| == |Children(t, c)|
               && ChildrenVisited(t, r, rng, c)
             else r.nodes[c] == t.nodes[c])
  }

  /** Every child of `n` in `t` is visited. */
  ghost predicate ChildrenVisited(t: Tree, r: Tree, rng: Range, n: NodeId)
    requires Valid(t) && Valid(r) && IsElement(t, n) && InTree(t, rng.start) && InTree(t, rng.end)
    decreases t.rank[n], 0
  {
    forall j :: 0 <= j < |Children(t, n)| ==> Visited(t, r, rng, Children(t, n)[j])
  }

  /** The range's ends have the same keys in `u` as in `t`. */
  ghost predicate KeysKept(t: Tree, u: Tree, rng: Range)
    requires Valid(t) && Valid(u) && InTree(t, rng.start) && InTree(t, rng.end)
    requires t.nodes.Keys <= u.nodes.Keys
  {
    Key(u, rng.start) == Key(t, rng.start) && Key(u, rng.end) == Key(t, rng.end)
  }

  /** The number of levels below `n`: 0 for a text node or an element without
      children. */
  function Height(t: Tree, n: NodeId): nat
    requires Valid(t) && n in t.nodes
    decreases t.rank[n], 1
  {
    if IsElement(t, n) then ChildrenHeight(t, n, |Children(t, n)|) else 0
  }

  /** One more than the greatest height among the first `k` children of `n`. */
  function ChildrenHeight(t: Tree, n: NodeId, k: nat): nat
    requires Valid(t) && IsElement(t, n) && k <= |Children(t, n)|
    decreases t.rank[n], 0, k
  {
    if k == 0 then 0
    else
      ChildOf(t, n, k - 1);
      var h, rest := Height(t, Children(t, n)[k - 1]) + 1, ChildrenHeight(t, n, k - 1);
      if h > rest then h else rest
  }

  /** A node is at least one level below its parent. */
  lemma ChildHeight(t: Tree, n: NodeId, j: nat)
    requires Valid(t) && IsElement(t, n) && j < |Children(t, n)|
    ensures Children(t, n)[j] in t.nodes && Height(t, Children(t, n)[j]) + 1 <= Height(t, n)
  {
    ChildrenHeightAbove(t, n, |Children(t, n)|, j);
  }

  lemma {:induction false} ChildrenHeightAbove(t: Tree, n: NodeId, k: nat, j: nat)
    requires Valid(t) && IsElement(t, n) && j < k <= |Children(t, n)|
    ensures Children(t, n)[j] in t.nodes && Height(t, Children(t, n)[j]) + 1 <= ChildrenHeight(t, n, k)
  {
    ChildOf(t, n, j);
    ChildOf(t, n, k - 1);
    var h, rest := Height(t, Children(t, n)[k - 1]) + 1, ChildrenHeight(t, n, k - 1);
    assert ChildrenHeight(t, n, k) == if h > rest then h else rest;
    if j < k - 1 {
      ChildrenHeightAbove(t, n, k - 1, j);
    }
  }

  /** A subtree that is the same in two trees has the same height in both. */
  lemma {:induction false} HeightSame(t: Tree, u: Tree, c: NodeId)
    requires Valid(t) && Valid(u) && c in t.nodes && SameBelow(t, u, c)
    ensures c in u.nodes && Height(u, c) == Height(t, c)
    decreases t.rank[c], 1
  {
    assert c in Ancestors(t, c);
    if IsElement(t, c) {
      ChildrenHeightSame(t, u, c, |Children(t, c)|);
    }
  }

  lemma {:induction false} ChildrenHeightSame(t: Tree, u: Tree, c: NodeId, k: nat)
    requires Valid(t) && Valid(u) && IsElement(t, c) && k <= |Children(t, c)| && SameBelow(t, u, c)
    ensures IsElement(u, c) && Children(u, c) == Children(t, c)
    ensures ChildrenHeight(u, c, k) == ChildrenHeight(t, c, k)
    decreases t.rank[c], 0, k
  {
    assert c in Ancestors(t, c);
    if k > 0 {
      ChildrenHeightSame(t, u, c, k - 1);
      ChildOf(t, c, k - 1);
      SameBelowChild(t, u, c, Children(t, c)[k - 1]);
      HeightSame(t, u, Children(t, c)[k - 1]);
    }
  }

  lemma Regroup(a: seq<nat>, b: seq<nat>, c: seq<nat>)
    ensures a + (b + c) == (a + b) + c
  {
  }

  /** The inclusive ancestors of `x` extend the key prefix of each of them. */
  lemma {:induction false} PrefixBelow(t: Tree, x: NodeId, y: NodeId) returns (w: seq<nat>)
    requires Valid(t) && x in t.nodes && y in Ancestors(t, x)
    ensures y in t.nodes && [Root(t, x)] + Path(t, x) == [Root(t, y)] + Path(t, y) + w
    decreases Above(t, x)
  {
    if x == y {
      w := [];
    } else {
      BelowAttached(t, y, x);
      var q := t.parent[x];
      AboveShrinks(t, x);
      var w' := PrefixBelow(t, q, y);
      RootPathStep(t, x);
      w := w' + [Index(t, x)];
      Regroup([Root(t, q)], Path(t, q), [Index(t, x)]);
      Regroup([Root(t, y)] + Path(t, y), w', [Index(t, x)]);
    }
  }

  /** A boundary point inside an attached node lies strictly between the two
      boundary points that select that node. */
  lemma KeyInside(t: Tree, bp: BoundaryPoint, y: NodeId)
    requires Valid(t) && InTree(t, bp) && y in t.parent && y in Ancestors(t, bp.node)
    ensures LexCmp(Key(t, NodeRange(t, y).start), Key(t, bp)) == -1
    ensures LexCmp(Key(t, bp), Key(t, NodeRange(t, y).end)) == -1
  {
    var w := PrefixBelow(t, bp.node, y);
    var k, o := Index(t, y), bp.offset;
    RootPathStep(t, y);
    var pre := [Root(t, t.parent[y])] + Path(t, t.parent[y]);
    Regroup([Root(t, t.parent[y])], Path(t, t.parent[y]), [k]);
    Regroup(pre + [k], w, [o]);
    PrefixFirst(pre + [k], w + [o]);
    Regroup(pre, [k], w + [o]);
    assert [Root(t, y)] + Path(t, y) == pre + [k];
    assert Key(t, bp) == pre + ([k] + (w + [o]));
    assert Key(t, NodeRange(t, y).end) == pre + [k + 1];
    LexCmpCommonPrefix(pre, [k] + (w + [o]), [k + 1]);
    assert LexCmp([k] + (w + [o]), [k + 1]) == -1;
  }

  /** An attached ancestor of an end of the range is not contained in it. */
  lemma EndNotContained(t: Tree, rng: Range, bp: BoundaryPoint, y: NodeId)
    requires Valid(t) && InTree(t, rng.start) && InTree(t, rng.end)
    requires bp == rng.start || bp == rng.end
    requires y in t.parent && y in Ancestors(t, bp.node)
    ensures Classify(t, rng, y) != Contained
  {
    KeyInside(t, bp, y);
    ClassifyKeys(t, rng, y);
    LexCmpFlip(Key(t, NodeRange(t, y).start), Key(t, bp));
  }

  /** An attached ancestor of both ends of the range is crossed by it. */
  lemma CommonCrossing(t: Tree, rng: Range, y: NodeId)
    requires Valid(t) && InTree(t, rng.start) && InTree(t, rng.end)
    requires y in t.parent && y in Ancestors(t, rng.start.node) && y in Ancestors(t, rng.end.node)
    ensures Classify(t, rng, y) == Crossing
  {
    KeyInside(t, rng.start, y);
    KeyInside(t, rng.end, y);
    ClassifyKeys(t, rng, y);
    var nr := NodeRange(t, y);
    LexCmpFlip(Key(t, nr.start), Key(t, rng.start));
    LexCmpFlip(Key(t, nr.start), Key(t, rng.end));
  }

  /** A child of a contained node is contained. */
  lemma ContainedChild(t: Tree, rng: Range, q: NodeId, y: NodeId)
    requires Valid(t) && InTree(t, rng.start) && InTree(t, rng.end)
    requires q in t.parent && y in t.parent && t.parent[y] == q
    requires Classify(t, rng, q) == Contained
    ensures Classify(t, rng, y) == Contained
  {
    ClassifyKeys(t, rng, q);
    ClassifyKeys(t, rng, y);
    ChildRangeInside(t, q, y);
    var s, e := Key(t, rng.start), Key(t, rng.end);
    var nr, cr := NodeRange(t, q), NodeRange(t, y);
    LexCmpTrans(s, Key(t, nr.start), Key(t, cr.start));
    LexCmpFlip(e, Key(t, nr.end));
    LexCmpTrans(Key(t, cr.end), Key(t, nr.end), e);
    LexCmpFlip(e, Key(t, cr.end));
  }

  /** The child of `a` on the way up from a node strictly below it. */
  lemma {:induction false} ChildOnWay(t: Tree, a: NodeId, x: NodeId) returns (c: NodeId)
    requires Valid(t) && x in t.nodes && a in Ancestors(t, x) && x != a
    ensures c in t.parent && t.parent[c] == a && c in Ancestors(t, x)
    decreases Above(t, x)
  {
    BelowAttached(t, a, x);
    AncestorsStep(t, x);
    if t.parent[x] == a {
      c := x;
    } else {
      AboveShrinks(t, x);
      c := ChildOnWay(t, a, t.parent[x]);
    }
  }

  /** The children of a visited node the range crosses are visited. */
  lemma VisitedChild(t: Tree, r: Tree, rng: Range, q: NodeId, y: NodeId)
    requires Valid(t) && Valid(r) && q in t.parent && InTree(t, rng.start) && InTree(t, rng.end)
    requires Visited(t, r, rng, q) && Classify(t, rng, q) == Crossing
    requires y in t.parent && t.parent[y] == q
    ensures Visited(t, r, rng, y)
  {
    assert IsElement(t, q) && ChildrenVisited(t, r, rng, q);
    assert Children(t, q)[Index(t, y)] == y;
  }

  /** The subtree of a visited node the range misses is kept whole. */
  lemma VisitedDisjoint(t: Tree, r: Tree, rng: Range, q: NodeId)
    requires Valid(t) && Valid(r) && q in t.parent && InTree(t, rng.start) && InTree(t, rng.end)
    requires Visited(t, r, rng, q) && Classify(t, rng, q) == Disjoint
    ensures Untouched(t, r, q) && SubtreeKept(t, r, q)
  {
  }

  /** Below a visited node, every node is inside a contained subtree, visited itself,
      or inside a subtree the walk kept. */
  lemma {:induction false} Reached(t: Tree, r: Tree, rng: Range, c: NodeId, y: NodeId)
    requires Valid(t) && Valid(r) && c in t.parent && InTree(t, rng.start) && InTree(t, rng.end)
    requires Visited(t, r, rng, c) && y in t.nodes && c in Ancestors(t, y)
    ensures y in t.parent
    ensures Classify(t, rng, y) == Contained || Visited(t, r, rng, y) || SubtreeKept(t, r, y)
    decreases Above(t, y)
  {
    if y != c {
      BelowAttached(t, c, y);
      var q := t.parent[y];
      AboveShrinks(t, y);
      Reached(t, r, rng, c, q);
      var k := Classify(t, rng, q);
      if k == Contained {
        ContainedChild(t, rng, q, y);
      } else if !Visited(t, r, rng, q) {
        SubtreeKeptBelow(t, r, q, y);
      } else if k == Disjoint {
        VisitedDisjoint(t, r, rng, q);
        SubtreeKeptBelow(t, r, q, y);
      } else {
        VisitedChild(t, r, rng, q, y);
      }
    }
  }

  /** Every inclusive ancestor of an end of the range at or below a visited node
      still sits at its index in its parent. */
  lemma {:induction false} ChainSlot(t: Tree, r: Tree, rng: Range, c: NodeId, bp: BoundaryPoint, y: NodeId)
    requires Valid(t) && Valid(r) && c in t.parent && InTree(t, rng.start) && InTree(t, rng.end)
    requires Visited(t, r, rng, c) && (bp == rng.start || bp == rng.end)
    requires y in Ancestors(t, bp.node) && y in t.nodes && c in Ancestors(t, y)
    ensures y in t.parent && SlotKept(t, r, y)
  {
    if y == c {
      EndNotContained(t, rng, bp, c);
    } else {
      BelowAttached(t, c, y);
      var q := t.parent[y];
      AncestorsStep(t, y);
      AncestorsTrans(t, bp.node, y, q);
      Reached(t, r, rng, c, q);
      EndNotContained(t, rng, bp, q);
      if Visited(t, r, rng, q) && Classify(t, rng, q) == Crossing {
        VisitedChild(t, r, rng, q, y);
        EndNotContained(t, rng, bp, y);
      } else if Visited(t, r, rng, q) {
        VisitedDisjoint(t, r, rng, q);
        assert q in Ancestors(t, q);
      } else {
        assert q in Ancestors(t, q);
      }
    }
  }

  /** Across one step of the loop, which checks the `i`-th child of `node`, every
      inclusive ancestor of an end of the range keeps its ancestors, root and path. */
  lemma {:induction false} ChainSame(u: Tree, v: Tree, rng: Range, node: NodeId, i: nat, bp: BoundaryPoint, y: NodeId)
    requires Valid(u) && Valid(v) && IsElement(u, node) && i < |Children(u, node)|
    requires Within(u, v, node, i, i + 1) && InTree(u, rng.start) && InTree(u, rng.end)
    requires Children(u, node)[i] in u.parent && Visited(u, v, rng, Children(u, node)[i])
    requires (bp == rng.start || bp == rng.end) && y in u.nodes && y in Ancestors(u, bp.node)
    ensures y in v.nodes && Ancestors(v, y) == Ancestors(u, y)
    ensures Root(v, y) == Root(u, y) && Path(v, y) == Path(u, y)
    decreases Above(u, y)
  {
    var c := Children(u, node)[i];
    if c !in Ancestors(u, y) {
      assert Outside(u, node, i, i + 1, y);
      PathKept(u, v, node, i, i + 1, y);
    } else {
      ChainSlot(u, v, rng, c, bp, y);
      var q := u.parent[y];
      AncestorsStep(u, y);
      AncestorsTrans(u, bp.node, y, q);
      AboveShrinks(u, y);
      ChainSame(u, v, rng, node, i, bp, q);
      SlotPlaced(u, v, y);
      AncestorsStep(v, y);
      RootPathStep(u, y);
      RootPathStep(v, y);
    }
  }

  /** `BelowKept` survives a later step that keeps the subtree of `s`. */
  lemma BelowKeptFrame(t: Tree, u: Tree, v: Tree, c: NodeId, s: NodeId)
    requires Valid(t) && Valid(u) && Valid(v) && BelowKept(t, u, c, s) && SubtreeKept(u, v, s)
    ensures BelowKept(t, v, c, s)
  {
    forall x | x in t.nodes && x != c && c in Ancestors(t, x)
      ensures x in v.nodes && v.nodes[x] == t.nodes[x] && s in Ancestors(v, x)
    {
      UnderKept(u, v, s, x);
    }
  }

  /** `ToggledAt` survives a later step that keeps the subtree of `s`. */
  lemma ToggledFrame(t: Tree, u: Tree, v: Tree, c: NodeId, s: NodeId)
    requires Valid(t) && Valid(u) && Valid(v) && c in t.parent
    requires ToggledAt(t, u, c, s) && SubtreeKept(u, v, s)
    ensures ToggledAt(t, v, c, s)
  {
    assert s in Ancestors(u, s);
    if ContainsRteSpanClass(t, c) || (IsElement(t, c) && !IsBoldDecorativeTag(t, c)) {
      BelowKeptFrame(t, u, v, c, s);
    } else if IsBoldDecorativeTag(t, c) {
      BelowKeptFrame(t, u, v, c, s);
    } else {
      ChildOf(u, s, 0);
      AncestorsStep(u, c);
    }
  }

  /** A visited node stays visited across a later step that leaves its place and the
      subtree standing there alone. */
  lemma {:induction false} VisitedFrame(t: Tree, u: Tree, v: Tree, rng: Range, c: NodeId)
    requires Valid(t) && Valid(u) && Valid(v) && c in t.parent && InTree(t, rng.start) && InTree(t, rng.end)
    requires Visited(t, u, rng, c)
    requires IsElement(v, t.parent[c]) && Index(t, c) < |Children(v, t.parent[c])|
    requires Children(v, t.parent[c])[Index(t, c)] == Children(u, t.parent[c])[Index(t, c)]
    requires SubtreeKept(u, v, Children(u, t.parent[c])[Index(t, c)])
    ensures Visited(t, v, rng, c)
    decreases t.rank[c]
  {
    var p, k := t.parent[c], Index(t, c);
    var s := Children(u, p)[k];
    ChildOf(u, p, k);
    assert s in Ancestors(u, s);
    match Classify(t, rng, c)
    case Contained =>
      ToggledFrame(t, u, v, c, s);
    case Disjoint =>
      BelowKeptFrame(t, u, v, c, c);
    case Crossing =>
      if IsElement(t, c) {
        forall j | 0 <= j < |Children(t, c)|
          ensures Visited(t, v, rng, Children(t, c)[j])
        {
          ChildOf(t, c, j);
          ChildOf(u, c, j);
          SubtreeKeptBelow(u, v, c, Children(u, c)[j]);
          VisitedFrame(t, u, v, rng, Children(t, c)[j]);
        }
      }
  }

  /** Checking the `i`-th child of `node` keeps the subtree at every other place. */
  lemma SiblingKept(u: Tree, v: Tree, node: NodeId, i: nat, j: nat)
    requires Valid(u) && IsElement(u, node) && i < |Children(u, node)| && j < |Children(u, node)| && i != j
    requires Within(u, v, node, i, i + 1)
    ensures SubtreeKept(u, v, Children(u, node)[j])
  {
    forall x | x in u.nodes && Children(u, node)[j] in Ancestors(u, x)
      ensures x in v.nodes && v.nodes[x] == u.nodes[x]
    {
      SiblingOutside(u, node, i, j, x);
    }
  }

  /** A node below the `j`-th child of `node` is not `node` and lies outside the
      place of the `i`-th. */
  lemma SiblingOutside(u: Tree, node: NodeId, i: nat, j: nat, x: NodeId)
    requires Valid(u) && IsElement(u, node) && i < |Children(u, node)| && j < |Children(u, node)| && i != j
    requires x in u.nodes && Children(u, node)[j] in Ancestors(u, x)
    ensures x != node && Outside(u, node, i, i + 1, x)
  {
    NotBelowChild(u, node, j, x);
    SiblingsApart(u, node, j, i, x);
    OutsideOne(u, node, i, x);
  }

  lemma NotBelowChild(u: Tree, node: NodeId, j: nat, x: NodeId)
    requires Valid(u) && IsElement(u, node) && j < |Children(u, node)|
    requires x in u.nodes && Children(u, node)[j] in Ancestors(u, x)
    ensures x != node
  {
    ChildOf(u, node, j);
    NotAboveParent(u, Children(u, node)[j]);
  }

  /** `BelowKept` carries over from a tree that agrees below `c`. */
  lemma BelowKeptTransfer(t: Tree, u: Tree, v: Tree, c: NodeId, s: NodeId)
    requires Valid(t) && Valid(u) && Valid(v) && SameBelow(t, u, c) && BelowKept(u, v, c, s)
    ensures BelowKept(t, v, c, s)
  {
    forall x | x in t.nodes && x != c && c in Ancestors(t, x)
      ensures x in v.nodes && v.nodes[x] == t.nodes[x] && s in Ancestors(v, x)
    {
    }
  }

  /** `ToggledAt` carries over from a tree that agrees below `c`. */
  lemma ToggledTransfer(t: Tree, u: Tree, v: Tree, c: NodeId, s: NodeId)
    requires Valid(t) && Valid(u) && Valid(v) && c in t.parent && c in u.parent
    requires t.nodes.Keys <= u.nodes.Keys && SameBelow(t, u, c) && ToggledAt(u, v, c, s)
    ensures ToggledAt(t, v, c, s)
  {
    assert c in Ancestors(t, c);
    if IsElement(t, c) {
      BelowKeptTransfer(t, u, v, c, s);
    }
  }

  /** A node whose parent, index and parent's key prefix agree in two trees, with the
      range's keys kept, is classified alike in both. */
  lemma ClassifySame(t: Tree, u: Tree, rng: Range, c: NodeId)
    requires Valid(t) && Valid(u) && c in t.parent && InTree(t, rng.start) && InTree(t, rng.end)
    requires t.nodes.Keys <= u.nodes.Keys && KeysKept(t, u, rng)
    requires c in u.parent && u.parent[c] == t.parent[c] && Index(u, c) == Index(t, c)
    requires Root(u, t.parent[c]) == Root(t, t.parent[c]) && Path(u, t.parent[c]) == Path(t, t.parent[c])
    ensures Classify(u, rng, c) == Classify(t, rng, c)
  {
    ClassifyKeys(t, rng, c);
    ClassifyKeys(u, rng, c);
    assert NodeRange(u, c) == NodeRange(t, c);
  }

  /** What a step from `u` leaves at `c` is what it leaves from `t`, when `t` and `u`
      agree below `c` and on the range's keys. */
  lemma {:induction false} VisitedTransfer(t: Tree, u: Tree, v: Tree, rng: Range, c: NodeId)
    requires Valid(t) && Valid(u) && Valid(v) && c in t.parent
    requires InTree(t, rng.start) && InTree(t, rng.end) && t.nodes.Keys <= u.nodes.Keys
    requires KeysKept(t, u, rng) && SameBelow(t, u, c)
    requires c in u.parent && Visited(u, v, rng, c)
    ensures Visited(t, v, rng, c)
    decreases t.rank[c]
  {
    assert c in Ancestors(t, c);
    AgreeStep(t, u, c);
    ClassifySame(t, u, rng, c);
    var s := Children(v, t.parent[c])[Index(t, c)];
    match Classify(t, rng, c)
    case Contained =>
      ToggledTransfer(t, u, v, c, s);
    case Disjoint =>
      BelowKeptTransfer(t, u, v, c, c);
    case Crossing =>
      if IsElement(t, c) {
        forall j | 0 <= j < |Children(t, c)|
          ensures Visited(t, v, rng, Children(t, c)[j])
        {
          var y := Children(t, c)[j];
          ChildOf(t, c, j);
          ChildOf(u, c, j);
          SameBelowChild(t, u, c, y);
          VisitedTransfer(t, u, v, rng, y);
        }
      }
  }

  /** Checking the first `i` children of `node` leaves the subtree of the `i`-th as
      it was. */
  lemma SameBelowWithin(t: Tree, u: Tree, node: NodeId, i: nat)
    requires Valid(t) && Valid(u) && IsElement(t, node) && i < |Children(t, node)|
    requires Within(t, u, node, 0, i)
    ensures SameBelow(t, u, Children(t, node)[i])
  {
    var c := Children(t, node)[i];
    ChildOf(t, node, i);
    NotAboveParent(t, c);
    forall x | x in t.nodes && c in Ancestors(t, x)
      ensures && x in u.nodes && u.nodes[x] == t.nodes[x] && Ancestors(u, x) == Ancestors(t, x)
              && Root(u, x) == Root(t, x) && Path(u, x) == Path(t, x)
    {
      forall j | 0 <= j < i
        ensures Children(t, node)[j] !in Ancestors(t, x)
      {
        SiblingsApart(t, node, i, j, x);
      }
      assert Outside(t, node, 0, i, x);
      PathKept(t, u, node, 0, i, x);
    }
  }

  /** One turn of the loop over the children of `node`: with the first `i` children
      visited from `t` to `u`, and the `i`-th visited from `u` to `v`, the first
      `i + 1` are visited from `t` to `v` and the range's keys are kept. */
  lemma StepVisited(t: Tree, u: Tree, v: Tree, rng: Range, node: NodeId, i: nat)
    requires Valid(t) && Valid(u) && Valid(v) && IsElement(t, node) && i < |Children(t, node)|
    requires InTree(t, rng.start) && InTree(t, rng.end)
    requires Within(t, u, node, 0, i) && KeysKept(t, u, rng)
    requires forall j :: 0 <= j < i ==> Visited(t, u, rng, Children(t, node)[j])
    requires Within(u, v, node, i, i + 1)
    requires Children(t, node)[i] in u.parent && Visited(u, v, rng, Children(t, node)[i])
    ensures t.nodes.Keys <= v.nodes.Keys && KeysKept(t, v, rng)
    ensures forall j :: 0 <= j < i + 1 ==> Visited(t, v, rng, Children(t, node)[j])
  {
    var c := Children(t, node)[i];
    ChildOf(t, node, i);
    RankOrderKeptTrans(t, u, v);
    SameBelowWithin(t, u, node, i);
    VisitedTransfer(t, u, v, rng, c);
    forall j | 0 <= j < i
      ensures Visited(t, v, rng, Children(t, node)[j])
    {
      ChildOf(t, node, j);
      SiblingKept(u, v, node, i, j);
      VisitedFrame(t, u, v, rng, Children(t, node)[j]);
    }
    ChainSame(u, v, rng, node, i, rng.start, rng.start.node);
    ChainSame(u, v, rng, node, i, rng.end, rng.end.node);
  }

  /** How a walk ends: normally, by an exception the DOM throws (`compareBoundaryPoints`
      on nodes of another tree, `setStartBefore` on a parentless node), or when the
      model's depth bound runs out. */
  datatype Status = Done | Thrown | OutOfFuel

  /** What `checkNode` does to `node` itself: it throws exactly when `node` is in
      another tree than the range; otherwise it toggles a contained node, leaves a
      disjoint one alone, and leaves a crossing text node alone. */
  ghost predicate Checked(t: Tree, node: NodeId, rng: Range, r: Tree, status: Status)
    requires Valid(t) && node in t.parent && InTree(t, rng.start) && InTree(t, rng.end)
  {
    && (status != Thrown ==> Root(t, node) == Root(t, rng.start.node))
    && (Root(t, node) == Root(t, rng.start.node) ==>
          && (Classify(t, rng, node) == Contained ==> r == ToggleNode(t, node) && status == Done)
          && (Classify(t, rng, node) == Disjoint ==> r == t && status == Done)
          && (Classify(t, rng, node) == Crossing && !IsElement(t, node) ==> r == t && status == Done))
  }

  /** `checkNode(doc, node, range, "bold")` (rte.js:188-237); `fuel` bounds the depth
      of the recursion, and a walk from a node the range is in the tree of, with at
      least the node's height as fuel, ends normally. */
  method CheckNode(t: Tree, node: NodeId, rng: Range, fuel: nat) returns (t': Tree, status: Status)
    requires Valid(t) && node in t.parent && InTree(t, rng.start) && InTree(t, rng.end)
    ensures Valid(t') && Within(t, t', t.parent[node], Index(t, node), Index(t, node) + 1)
    ensures Checked(t, node, rng, t', status)
    ensures status == Done ==> Visited(t, t', rng, node)
    ensures Root(t, node) == Root(t, rng.start.node) && Height(t, node) <= fuel ==> status == Done
    decreases fuel, 2
  {
    var p := t.parent[node];
    assert IsElement(t, p);
    if Root(t, node) != Root(t, rng.start.node) {
      // compareBoundaryPoints throws a WrongDocumentError
      WithinRefl(t, p, Index(t, node), Index(t, node) + 1);
      return t, Thrown;
    }
    var overlap := Classify(t, rng, node);
    if overlap == Contained {
      t' := ToggleNode(t, node);
      ToggleWithin(t, node);
      ToggleVisited(t, node);
      status := Done;
    } else if overlap == Disjoint || !IsElement(t, node) {
      // a text node has no children to visit
      WithinRefl(t, p, Index(t, node), Index(t, node) + 1);
      KeptVisited(t, rng, node);
      t', status := t, Done;
    } else {
      t', status := CheckChildren(t, node, rng, fuel);
      WithinLift(t, t', node);
      if status == Done {
        CrossingVisited(t, t', rng, node);
      }
    }
  }

  /** The loop of rte.js:233-235 over the live child list of `node`. Contained
      children are replaced in place, so the list keeps its length and the loop
      visits each original child once. */
  method CheckChildren(t: Tree, node: NodeId, rng: Range, fuel: nat) returns (t': Tree, status: Status)
    requires Valid(t) && IsElement(t, node) && InTree(t, rng.start) && InTree(t, rng.end)
    ensures Valid(t') && Within(t, t', node, 0, |Children(t, node)|)
    ensures status == Done ==> ChildrenVisited(t, t', rng, node)
    ensures Root(t, node) == Root(t, rng.start.node) && Height(t, node) <= fuel ==> status == Done
    decreases fuel, 1
  {
    if fuel == 0 && |Children(t, node)| > 0 {
      // the model's depth bound: the first child would be one level too deep
      ChildHeight(t, node, 0);
      WithinRefl(t, node, 0, |Children(t, node)|);
      return t, OutOfFuel;
    }
    t', status := t, Done;
    WithinRefl(t, node, 0, 0);
    var i := 0;
    while i < |Children(t, node)| && status == Done
      invariant Valid(t') && Within(t, t', node, 0, i) && i <= |Children(t, node)|
      invariant status == Done ==> WalkedUpTo(t, t', rng, node, i)
      invariant status != Done ==> !(Root(t, node) == Root(t, rng.start.node) && Height(t, node) <= fuel)
      decreases |Children(t, node)| - i
    {
      t', status := CheckChild(t, t', node, i, Children(t, node)[i], rng, fuel);
      i := i + 1;
    }
    WithinWiden(t, t', node, 0, i, 0, |Children(t, node)|);
  }

  /** What the first `i` turns of that loop leave: `u` differs from `t` only below
      those children of `node`, each of them is visited, and the range's ends keep
      their keys. */
  ghost predicate WalkedUpTo(t: Tree, u: Tree, rng: Range, node: NodeId, i: nat)
    requires Valid(t) && IsElement(t, node) && InTree(t, rng.start) && InTree(t, rng.end)
  {
    && i <= |Children(t, node)| && Valid(u) && Within(t, u, node, 0, i) && KeysKept(t, u, rng)
    && forall j :: 0 <= j < i ==> Visited(t, u, rng, Children(t, node)[j])
  }

  /** One turn of that loop: `checkNode` on the `i`-th child `c` of `node` in the tree
      `u` the earlier turns left, `t` being the tree before the loop. */
  method CheckChild(t: Tree, u: Tree, node: NodeId, i: nat, c: NodeId, rng: Range, fuel: nat) returns (v: Tree, status: Status)
    requires Valid(t) && IsElement(t, node) && i < |Children(t, node)| && c == Children(t, node)[i]
    requires InTree(t, rng.start) && InTree(t, rng.end)
    requires WalkedUpTo(t, u, rng, node, i) && fuel > 0
    ensures Valid(v) && Within(t, v, node, 0, i + 1)
    ensures status == Done ==> WalkedUpTo(t, v, rng, node, i + 1)
    ensures Root(t, node) == Root(t, rng.start.node) && Height(t, node) <= fuel ==> status == Done
    decreases fuel, 0
  {
    ChildOf(u, node, i);
    StepPremise(t, u, rng, node, i);
    v, status := CheckNode(u, c, rng, fuel - 1);
    ChildStep(t, u, v, rng, node, i, c, status);
  }

  /** What one turn of the loop adds to what the earlier turns established. */
  lemma ChildStep(t: Tree, u: Tree, v: Tree, rng: Range, node: NodeId, i: nat, c: NodeId, status: Status)
    requires Valid(t) && IsElement(t, node) && i < |Children(t, node)|
    requires InTree(t, rng.start) && InTree(t, rng.end) && WalkedUpTo(t, u, rng, node, i)
    requires c == Children(t, node)[i] && c in u.parent && u.parent[c] == node && Index(u, c) == i
    requires Valid(v) && Within(u, v, u.parent[c], Index(u, c), Index(u, c) + 1)
    requires status == Done ==> Visited(u, v, rng, c)
    ensures Within(t, v, node, 0, i + 1)
    ensures status == Done ==> WalkedUpTo(t, v, rng, node, i + 1)
  {
    WithinChild(t, u, v, node, i, c);
    if status == Done {
      WithinAt(u, v, node, i, c);
      StepVisited(t, u, v, rng, node, i);
    }
  }


  /** The facts one turn of the loop needs about the `i`-th child `c` of `node`:
      `c` is still there, it is no higher than one level below `node`, and it is in
      the range's tree when `node` is. */
  lemma StepPremise(t: Tree, u: Tree, rng: Range, node: NodeId, i: nat)
    requires Valid(t) && Valid(u) && IsElement(t, node) && i < |Children(t, node)|
    requires InTree(t, rng.start) && InTree(t, rng.end)
    requires Within(t, u, node, 0, i) && KeysKept(t, u, rng)
    ensures Children(u, node)[i] == Children(t, node)[i] && Children(t, node)[i] in u.nodes
    ensures Height(u, Children(t, node)[i]) + 1 <= Height(t, node)
    ensures Root(t, node) == Root(t, rng.start.node) ==>
              Root(u, Children(t, node)[i]) == Root(u, rng.start.node)
  {
    var c := Children(t, node)[i];
    ChildOf(t, node, i);
    SameBelowWithin(t, u, node, i);
    HeightSame(t, u, c);
    ChildHeight(t, node, i);
    assert c in Ancestors(t, c);
    RootPathStep(t, c);
    assert Key(u, rng.start)[0] == Root(u, rng.start.node);
    assert Key(t, rng.start)[0] == Root(t, rng.start.node);
  }

  /** A node the walk leaves as it is, because the range misses it or it is a text
      node the range crosses, is visited. */
  lemma KeptVisited(t: Tree, rng: Range, node: NodeId)
    requires Valid(t) && node in t.parent && InTree(t, rng.start) && InTree(t, rng.end)
    requires Classify(t, rng, node) == Disjoint || (Classify(t, rng, node) == Crossing && !IsElement(t, node))
    ensures Visited(t, t, rng, node)
  {
    assert node in Ancestors(t, node);
  }

  /** An element the range crosses, whose children are all visited, is visited. */
  lemma CrossingVisited(t: Tree, r: Tree, rng: Range, node: NodeId)
    requires Valid(t) && Valid(r) && node in t.parent && IsElement(t, node)
    requires InTree(t, rng.start) && InTree(t, rng.end) && Classify(t, rng, node) == Crossing
    requires Within(t, r, node, 0, |Children(t, node)|) && ChildrenVisited(t, r, rng, node)
    ensures Visited(t, r, rng, node)
  {
    WithinLift(t, r, node);
  }

  /** rte.js:182-185 after the ends are split: every child of the range's common
      ancestor is checked, with the ancestor's height as fuel. The walk ends normally,
      visits every child, changes nothing outside the ancestor, and leaves every node
      the range misses as it was. */
  method CheckRange(t: Tree, rng: Range) returns (t': Tree, status: Status)
    requires Valid(t) && InTree(t, rng.start) && InTree(t, rng.end) && !IsText(t, rng.start.node)
    ensures Valid(t')
    ensures var a := CommonAncestor(t, rng.start.node, rng.end.node);
      && (a.None? ==> t' == t && status == Done)
      && (a.Some? ==> && IsElement(t, a.value) && status == Done
                      && Within(t, t', a.value, 0, |Children(t, a.value)|)
                      && ChildrenVisited(t, t', rng, a.value))
    ensures forall x :: x in t.parent && Classify(t, rng, x) == Disjoint ==> x in t'.nodes && t'.nodes[x] == t.nodes[x]
  {
    var ancestor := CommonAncestor(t, rng.start.node, rng.end.node);
    if ancestor.None? {
      // the ends of a live range are always in one tree
      return t, Done;
    }
    var a := ancestor.value;
    AncestorIsElement(t, rng.start.node, a);
    RootOfAncestor(t, rng.start.node, a);
    t', status := CheckChildren(t, a, rng, Height(t, a));
    DisjointUntouched(t, t', rng, a);
  }

  /** Every attached node the range misses is left as it was. */
  lemma DisjointUntouched(t: Tree, r: Tree, rng: Range, a: NodeId)
    requires Valid(t) && Valid(r) && IsElement(t, a) && InTree(t, rng.start) && InTree(t, rng.end)
    requires a in Ancestors(t, rng.start.node) && a in Ancestors(t, rng.end.node)
    requires Within(t, r, a, 0, |Children(t, a)|) && ChildrenVisited(t, r, rng, a)
    ensures forall x :: x in t.parent && Classify(t, rng, x) == Disjoint ==> x in r.nodes && r.nodes[x] == t.nodes[x]
  {
    forall x | x in t.parent && Classify(t, rng, x) == Disjoint
      ensures x in r.nodes && r.nodes[x] == t.nodes[x]
    {
      DisjointUntouchedAt(t, r, rng, a, x);
    }
  }

  lemma DisjointUntouchedAt(t: Tree, r: Tree, rng: Range, a: NodeId, x: NodeId)
    requires Valid(t) && Valid(r) && IsElement(t, a) && InTree(t, rng.start) && InTree(t, rng.end)
    requires a in Ancestors(t, rng.start.node) && a in Ancestors(t, rng.end.node)
    requires Within(t, r, a, 0, |Children(t, a)|) && ChildrenVisited(t, r, rng, a)
    requires x in t.parent && Classify(t, rng, x) == Disjoint
    ensures x in r.nodes && r.nodes[x] == t.nodes[x]
  {
    if a !in Ancestors(t, x) {
      LiftKeeps(t, r, a, x);
    } else if x == a {
      CommonCrossing(t, rng, a);
    } else {
      var c := ChildOnWay(t, a, x);
      assert Children(t, a)[Index(t, c)] == c;
      Reached(t, r, rng, c, x);
      if Visited(t, r, rng, x) {
        VisitedDisjoint(t, r, rng, x);
      }
      assert x in Ancestors(t, x);
    }
  }

  /** `toggleBoldLogic(doc, editor)` (rte.js:179-186) on the selection's first range,
      `None` when the selection has none and `getRangeAt(0)` throws: split text at the
      range's ends, then check every child of the common ancestor. */
  method ToggleBoldLogic(t: Tree, sel: Option<Range>) returns (t': Tree, status: Status)
    requires Valid(t) && (sel.Some? ==> ValidRange(t, sel.value))
    ensures Valid(t')
    ensures sel.None? ==> t' == t && status == Thrown
    ensures sel.Some? ==> var rng := sel.value;
              && (IsText(t, rng.start.node) && rng.start.node !in t.parent ==> status == Thrown)
              && (((IsText(t, rng.start.node) ==> rng.start.node in t.parent) &&
                   (IsText(t, rng.end.node) ==> rng.end.node in t.parent)) ==> status == Done)
    ensures sel.Some? && !IsText(t, sel.value.start.node) && !IsText(t, sel.value.end.node) ==>
              var rng := sel.value;
              var a := CommonAncestor(t, rng.start.node, rng.end.node);
              && (a.None? ==> t' == t)
              && (a.Some? ==> && IsElement(t, a.value) && Within(t, t', a.value, 0, |Children(t, a.value)|)
                              && ChildrenVisited(t, t', rng, a.value))
              && forall x :: x in t.parent && Classify(t, rng, x) == Disjoint ==>
                   x in t'.nodes && t'.nodes[x] == t.nodes[x]
  {
    if sel.None? {
      // getRangeAt(0) on a selection without ranges throws before anything changes
      return t, Thrown;
    }
    var t1, res := Sanitize(t, sel.value);
    if res.None? {
      // setStartBefore or setEndBefore on a parentless text node throws
      return t1, Thrown;
    }
    t', status := CheckRange(t1, res.value);
  }
}
