/** Where a change to the tree can be seen. A walk that works on the children of an
    element one at a time changes only the subtrees at the places it has visited;
    everything else keeps its record, its parent, its ancestors and its path, and
    so the position of every boundary point outside those subtrees. */
module Frame {
  import opened Wrappers
  import opened Dom
  import opened Edit
  import opened Boundary

  /** No child of `p` at an index in `lo..hi-1` is an inclusive ancestor of `x`. */
  ghost predicate Outside(t: Tree, p: NodeId, lo: nat, hi: nat, x: NodeId)
    requires Valid(t) && x in t.nodes
  {
    forall k :: lo <= k < hi && k < |Children(t, p)| ==> Children(t, p)[k] !in Ancestors(t, x)
  }

  /** A node outside the subtree of the `i`-th child of `p` is outside that one
      place. */
  lemma OutsideOne(t: Tree, p: NodeId, i: nat, x: NodeId)
    requires Valid(t) && x in t.nodes && i < |Children(t, p)| && Children(t, p)[i] !in Ancestors(t, x)
    ensures Outside(t, p, i, i + 1, x)
  {
    forall k | i <= k < i + 1 && k < |Children(t, p)|
      ensures Children(t, p)[k] !in Ancestors(t, x)
    {
      assert k == i;
    }
  }

  /** `r` differs from `t` only inside the subtrees of the children of the element
      `p` at indices `lo` to `hi - 1`, each of which may also have been replaced in
      its place by another node. */
  ghost predicate Within(t: Tree, r: Tree, p: NodeId, lo: nat, hi: nat)
    requires Valid(t) && IsElement(t, p)
  {
    && RankOrderKept(t, r)
    && IsElement(r, p)
    && r.nodes[p] == t.nodes[p].(children := r.nodes[p].children)
    && |Children(r, p)| == |Children(t, p)|
    && (forall k :: 0 <= k < |Children(t, p)| && (k < lo || hi <= k) ==> Children(r, p)[k] == Children(t, p)[k])
    && (forall x {:trigger Outside(t, p, lo, hi, x)} :: x in t.nodes && Outside(t, p, lo, hi, x) ==>
          x in r.nodes && Parent(r, x) == Parent(t, x) && (x != p ==> r.nodes[x] == t.nodes[x]))
  }

  /** Every node of the subtree of `c` in `t` keeps its record in `r`. */
  ghost predicate SubtreeKept(t: Tree, r: Tree, c: NodeId)
    requires Valid(t)
  {
    forall x {:trigger Ancestors(t, x)} :: x in t.nodes && c in Ancestors(t, x) ==> x in r.nodes && r.nodes[x] == t.nodes[x]
  }

  /** Ranks rise strictly along a list of ancestors. */
  lemma {:induction false} AncestorsRising(t: Tree, x: NodeId, i: nat, j: nat)
    requires Valid(t) && x in t.nodes && i < j < |Ancestors(t, x)|
    ensures t.rank[Ancestors(t, x)[i]] < t.rank[Ancestors(t, x)[j]]
    decreases j - i
  {
    var a := Ancestors(t, x);
    assert t.parent[a[j - 1]] == a[j];
    if i < j - 1 {
      AncestorsRising(t, x, i, j - 1);
    }
  }

  /** An inclusive ancestor is ranked at least as high. */
  lemma AncestorRank(t: Tree, x: NodeId, y: NodeId)
    requires Valid(t) && x in t.nodes && y in Ancestors(t, x)
    ensures y in t.nodes && t.rank[x] <= t.rank[y]
  {
    var a := Ancestors(t, x);
    var i :| 0 <= i < |a| && a[i] == y;
    if i > 0 {
      AncestorsRising(t, x, 0, i);
    }
  }

  /** The list of ancestors of an attached node is the node and then its parent's. */
  lemma AncestorsStep(t: Tree, x: NodeId)
    requires Valid(t) && x in t.parent
    ensures t.parent[x] in t.nodes && Ancestors(t, x) == [x] + Ancestors(t, t.parent[x])
  {
  }

  /** No node is an inclusive ancestor of its own parent. */
  lemma NotAboveParent(t: Tree, c: NodeId)
    requires Valid(t) && c in t.parent
    ensures t.parent[c] in t.nodes && c !in Ancestors(t, t.parent[c])
  {
    if c in Ancestors(t, t.parent[c]) {
      AncestorRank(t, t.parent[c], c);
    }
  }

  /** No two children of one element are inclusive ancestors of the same node. */
  lemma {:induction false} SiblingsApart(t: Tree, p: NodeId, j: nat, i: nat, x: NodeId)
    requires Valid(t) && IsElement(t, p) && j < |Children(t, p)| && i < |Children(t, p)| && i != j
    requires x in t.nodes && Children(t, p)[j] in Ancestors(t, x)
    ensures Children(t, p)[i] !in Ancestors(t, x)
    decreases Above(t, x)
  {
    var cj, ci := Children(t, p)[j], Children(t, p)[i];
    ChildOf(t, p, j);
    ChildOf(t, p, i);
    Distinct(t, p);
    assert ci != cj;
    NotAboveParent(t, ci);
    NotAboveParent(t, cj);
    AncestorsStep(t, ci);
    AncestorsStep(t, cj);
    if x != cj {
      AncestorsStep(t, x);
      AboveShrinks(t, x);
      SiblingsApart(t, p, j, i, t.parent[x]);
    }
  }

  /** A node below a child of `n` is below `n`. */
  lemma BelowChild(t: Tree, n: NodeId, c: NodeId, x: NodeId)
    requires Valid(t) && c in t.parent && t.parent[c] == n && x in t.nodes && c in Ancestors(t, x)
    ensures n in t.nodes && n in Ancestors(t, x)
  {
    AncestorsStep(t, c);
    AncestorsTrans(t, x, c, n);
  }

  /** The subtree of `c` is found in `u` as it is in `t` when each of its nodes keeps
      its list of children: every node below `c` in `t` is below `c` in `u`. */
  lemma {:induction false} UnderKept(t: Tree, u: Tree, c: NodeId, x: NodeId)
    requires Valid(t) && Valid(u) && x in t.nodes && c in Ancestors(t, x)
    requires forall y :: y in t.nodes && c in Ancestors(t, y) ==> y in u.nodes && Children(u, y) == Children(t, y)
    ensures x in u.nodes && c in Ancestors(u, x)
    decreases Above(t, x)
  {
    if x != c {
      var y := t.parent[x];
      AncestorsStep(t, x);
      AboveShrinks(t, x);
      UnderKept(t, u, c, y);
      ChildOf(t, y, Index(t, x));
      assert Children(u, y)[Index(t, x)] == x;
      assert u.parent[x] == y;
      AncestorsStep(u, x);
    }
  }

  /** Outside the places `lo..hi-1` of `p`, a node keeps its ancestors, its root and
      its path. */
  lemma {:induction false} PathKept(t: Tree, r: Tree, p: NodeId, lo: nat, hi: nat, x: NodeId)
    requires Valid(t) && Valid(r) && IsElement(t, p) && Within(t, r, p, lo, hi)
    requires x in t.nodes && Outside(t, p, lo, hi, x)
    ensures x in r.nodes && Ancestors(r, x) == Ancestors(t, x)
    ensures Root(r, x) == Root(t, x) && Path(r, x) == Path(t, x)
    decreases Above(t, x)
  {
    assert Parent(r, x) == Parent(t, x);
    if x in t.parent {
      var y := t.parent[x];
      AncestorsStep(t, x);
      AboveShrinks(t, x);
      PathKept(t, r, p, lo, hi, y);
      IndexKept(t, r, p, lo, hi, x);
      RootPathStep(t, x);
      RootPathStep(r, x);
      AncestorsStep(r, x);
    }
  }

  /** An attached node outside the places `lo..hi-1` of `p` keeps its index. */
  lemma IndexKept(t: Tree, r: Tree, p: NodeId, lo: nat, hi: nat, x: NodeId)
    requires Valid(t) && Valid(r) && IsElement(t, p) && Within(t, r, p, lo, hi)
    requires x in t.parent && Outside(t, p, lo, hi, x)
    ensures x in r.parent && r.parent[x] == t.parent[x] && Index(r, x) == Index(t, x)
  {
    assert Parent(r, x) == Parent(t, x);
    var y, k := t.parent[x], Index(t, x);
    AncestorsStep(t, x);
    if y == p {
      assert Children(r, p)[k] == x;
    } else {
      assert Outside(t, p, lo, hi, y);
      assert r.nodes[y] == t.nodes[y];
      assert Children(r, y)[k] == x;
    }
    IndexUnique(r, x, k);
  }

  /** `Within` from its parts, proved apart from the facts that establish them. */
  lemma WithinIntro(t: Tree, r: Tree, p: NodeId, lo: nat, hi: nat)
    requires Valid(t) && IsElement(t, p) && RankOrderKept(t, r) && IsElement(r, p)
    requires r.nodes[p] == t.nodes[p].(children := r.nodes[p].children)
    requires |Children(r, p)| == |Children(t, p)|
    requires forall k :: 0 <= k < |Children(t, p)| && (k < lo || hi <= k) ==> Children(r, p)[k] == Children(t, p)[k]
    requires forall x :: x in t.nodes && Outside(t, p, lo, hi, x) ==>
               x in r.nodes && Parent(r, x) == Parent(t, x) && (x != p ==> r.nodes[x] == t.nodes[x])
    ensures Within(t, r, p, lo, hi)
  {
  }

  lemma WithinRefl(t: Tree, p: NodeId, lo: nat, hi: nat)
    requires Valid(t) && IsElement(t, p)
    ensures Within(t, t, p, lo, hi)
  {
  }

  lemma WithinWiden(t: Tree, r: Tree, p: NodeId, lo: nat, hi: nat, lo': nat, hi': nat)
    requires Valid(t) && IsElement(t, p) && Within(t, r, p, lo, hi) && lo' <= lo && hi <= hi'
    ensures Within(t, r, p, lo', hi')
  {
    forall x | x in t.nodes && Outside(t, p, lo', hi', x)
      ensures x in r.nodes && Parent(r, x) == Parent(t, x) && (x != p ==> r.nodes[x] == t.nodes[x])
    {
      assert Outside(t, p, lo, hi, x);
    }
  }

  /** Changes below the children `0..i-1` of `p`, then below child `i`, are changes
      below the children `0..i`. */
  lemma WithinStep(t: Tree, u: Tree, v: Tree, p: NodeId, i: nat)
    requires Valid(t) && Valid(u) && IsElement(t, p) && Within(t, u, p, 0, i)
    requires Within(u, v, p, i, i + 1)
    ensures Within(t, v, p, 0, i + 1)
  {
    RankOrderKeptTrans(t, u, v);
    forall x | x in t.nodes && Outside(t, p, 0, i + 1, x)
      ensures x in v.nodes && Parent(v, x) == Parent(t, x) && (x != p ==> v.nodes[x] == t.nodes[x])
    {
      StepKeeps(t, u, v, p, i, x);
    }
  }

  lemma StepKeeps(t: Tree, u: Tree, v: Tree, p: NodeId, i: nat, x: NodeId)
    requires Valid(t) && Valid(u) && IsElement(t, p) && Within(t, u, p, 0, i)
    requires Within(u, v, p, i, i + 1)
    requires x in t.nodes && Outside(t, p, 0, i + 1, x)
    ensures x in v.nodes && Parent(v, x) == Parent(t, x) && (x != p ==> v.nodes[x] == t.nodes[x])
  {
    assert Outside(t, p, 0, i, x);
    PathKept(t, u, p, 0, i, x);
    if i < |Children(t, p)| {
      assert Children(u, p)[i] == Children(t, p)[i];
    }
    assert Outside(u, p, i, i + 1, x);
  }

  /** Changes below the children of `n` are changes below `n`'s place in its parent,
      and leave the parent's record as it was. */
  lemma WithinLift(t: Tree, r: Tree, n: NodeId)
    requires Valid(t) && IsElement(t, n) && n in t.parent
    requires Within(t, r, n, 0, |Children(t, n)|)
    ensures t.parent[n] in r.nodes && r.nodes[t.parent[n]] == t.nodes[t.parent[n]]
    ensures Within(t, r, t.parent[n], Index(t, n), Index(t, n) + 1)
  {
    AncestorsStep(t, n);
    LiftAt(t, r, n, t.parent[n], Index(t, n));
  }

  lemma LiftAt(t: Tree, r: Tree, n: NodeId, p: NodeId, k: nat)
    requires Valid(t) && IsElement(t, n) && n in t.parent && t.parent[n] == p && IsElement(t, p)
    requires k < |Children(t, p)| && Children(t, p)[k] == n
    requires Within(t, r, n, 0, |Children(t, n)|)
    ensures p in r.nodes && r.nodes[p] == t.nodes[p]
    ensures Within(t, r, p, k, k + 1)
  {
    NotAboveParent(t, n);
    LiftKeeps(t, r, n, p);
    forall x | x in t.nodes && Outside(t, p, k, k + 1, x)
      ensures x in r.nodes && Parent(r, x) == Parent(t, x) && (x != p ==> r.nodes[x] == t.nodes[x])
    {
      LiftOne(t, r, n, p, k, x);
    }
    assert Children(r, p) == Children(t, p);
    WithinIntro(t, r, p, k, k + 1);
  }

  lemma LiftOne(t: Tree, r: Tree, n: NodeId, p: NodeId, k: nat, x: NodeId)
    requires Valid(t) && IsElement(t, n) && IsElement(t, p) && k < |Children(t, p)| && Children(t, p)[k] == n
    requires Within(t, r, n, 0, |Children(t, n)|)
    requires x in t.nodes && Outside(t, p, k, k + 1, x)
    ensures x in r.nodes && Parent(r, x) == Parent(t, x) && r.nodes[x] == t.nodes[x]
  {
    assert Children(t, p)[k] !in Ancestors(t, x);
    LiftKeeps(t, r, n, x);
  }

  /** A node outside the subtree of `n` is untouched by changes below `n`'s children. */
  lemma LiftKeeps(t: Tree, r: Tree, n: NodeId, x: NodeId)
    requires Valid(t) && IsElement(t, n)
    requires Within(t, r, n, 0, |Children(t, n)|)
    requires x in t.nodes && n !in Ancestors(t, x)
    ensures x in r.nodes && Parent(r, x) == Parent(t, x) && r.nodes[x] == t.nodes[x]
  {
    forall k | 0 <= k < |Children(t, n)|
      ensures Children(t, n)[k] !in Ancestors(t, x)
    {
      ChildOf(t, n, k);
      if Children(t, n)[k] in Ancestors(t, x) {
        BelowChild(t, n, Children(t, n)[k], x);
      }
    }
    assert Outside(t, n, 0, |Children(t, n)|, x);
  }

  /** A node below `c`, other than `c`, is attached and below `c`'s child on its
      way up. */
  lemma BelowAttached(t: Tree, c: NodeId, x: NodeId)
    requires Valid(t) && x in t.nodes && c in Ancestors(t, x) && x != c
    ensures x in t.parent && t.parent[x] in t.nodes && c in Ancestors(t, t.parent[x])
  {
    AncestorsStep(t, x);
  }

  /** A node outside the place of `c` in its parent is neither `c`, nor a child of
      `c`, nor a node that is not yet allocated. */
  lemma OutsideSlot(t: Tree, c: NodeId, x: NodeId)
    requires Valid(t) && c in t.parent && x in t.nodes
    requires Outside(t, t.parent[c], Index(t, c), Index(t, c) + 1, x)
    ensures x != c && x != t.next && (x in t.parent ==> t.parent[x] != c)
  {
    assert Children(t, t.parent[c])[Index(t, c)] !in Ancestors(t, x);
    if x in t.parent {
      AncestorsStep(t, x);
    }
  }

  /** Every node strictly below `c` in `t` keeps its record in `r` and lies below `s`
      there. */
  ghost predicate BelowKept(t: Tree, r: Tree, c: NodeId, s: NodeId)
    requires Valid(t) && Valid(r)
  {
    forall x {:trigger Ancestors(t, x)} :: x in t.nodes && x != c && c in Ancestors(t, x) ==>
      x in r.nodes && r.nodes[x] == t.nodes[x] && s in Ancestors(r, x)
  }

  /** The subtree of `c` is in `r` as it is in `t`: every node keeps its record and
      stays below `c`. */
  ghost predicate Untouched(t: Tree, r: Tree, c: NodeId)
    requires Valid(t) && Valid(r)
  {
    c in t.nodes && c in r.nodes && r.nodes[c] == t.nodes[c] && BelowKept(t, r, c, c)
  }

  /** Every node of the subtree of `c` has in `u` the record, the ancestors, the root
      and the path it has in `t`. */
  ghost predicate SameBelow(t: Tree, u: Tree, c: NodeId)
    requires Valid(t) && Valid(u)
  {
    forall x {:trigger Ancestors(t, x)} :: x in t.nodes && c in Ancestors(t, x) ==>
      && x in u.nodes && u.nodes[x] == t.nodes[x] && Ancestors(u, x) == Ancestors(t, x)
      && Root(u, x) == Root(t, x) && Path(u, x) == Path(t, x)
  }

  /** The attached node `y` of `t` is still listed in `r` at its index in its parent. */
  ghost predicate SlotKept(t: Tree, r: Tree, y: NodeId)
    requires Valid(t) && y in t.parent
  {
    IsElement(r, t.parent[y]) && Index(t, y) < |Children(r, t.parent[y])|
    && Children(r, t.parent[y])[Index(t, y)] == y
  }

  lemma SlotPlaced(t: Tree, r: Tree, y: NodeId)
    requires Valid(t) && Valid(r) && y in t.parent && SlotKept(t, r, y)
    ensures y in r.parent && r.parent[y] == t.parent[y] && Index(r, y) == Index(t, y)
  {
    ChildOf(r, t.parent[y], Index(t, y));
  }

  lemma SubtreeKeptBelow(t: Tree, r: Tree, q: NodeId, y: NodeId)
    requires Valid(t) && SubtreeKept(t, r, q) && y in t.parent && t.parent[y] == q
    ensures SubtreeKept(t, r, y)
  {
    forall x | x in t.nodes && y in Ancestors(t, x)
      ensures x in r.nodes && r.nodes[x] == t.nodes[x]
    {
      BelowChild(t, q, y, x);
    }
  }

  lemma SameBelowChild(t: Tree, u: Tree, q: NodeId, y: NodeId)
    requires Valid(t) && Valid(u) && SameBelow(t, u, q) && y in t.parent && t.parent[y] == q
    ensures SameBelow(t, u, y)
  {
    forall x | x in t.nodes && y in Ancestors(t, x)
      ensures x in u.nodes && u.nodes[x] == t.nodes[x] && Ancestors(u, x) == Ancestors(t, x)
      ensures Root(u, x) == Root(t, x) && Path(u, x) == Path(t, x)
    {
      BelowChild(t, q, y, x);
    }
  }

  /** A node whose ancestors, root and path agree in two trees has the same parent,
      index, and parent's root and path in both. */
  lemma AgreeStep(t: Tree, u: Tree, x: NodeId)
    requires Valid(t) && Valid(u) && x in t.parent && x in u.nodes
    requires Ancestors(u, x) == Ancestors(t, x) && Root(u, x) == Root(t, x) && Path(u, x) == Path(t, x)
    ensures x in u.parent && u.parent[x] == t.parent[x] && Index(u, x) == Index(t, x)
    ensures t.parent[x] in u.nodes && Root(u, t.parent[x]) == Root(t, t.parent[x])
    ensures Path(u, t.parent[x]) == Path(t, t.parent[x])
  {
    AncestorsStep(t, x);
    assert x in u.parent;
    AncestorsStep(u, x);
    assert Ancestors(u, x)[1] == Ancestors(t, x)[1];
    RootPathStep(t, x);
    RootPathStep(u, x);
    var pu, pt := Path(u, u.parent[x]), Path(t, t.parent[x]);
    assert |pu| == |pt|;
    assert pu + [Index(u, x)] == pt + [Index(t, x)];
    assert pu == (pu + [Index(u, x)])[..|pu|];
  }
}
