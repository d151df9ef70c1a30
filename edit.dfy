/** The host's tree mutations used by the editor, each proved to keep the arena a
    tree: `removeChild`, `Text.splitText` (section 4.11 of the DOM Living Standard),
    `replaceChild` with a new span, wrapping a node in a new span, setting the
    `style.fontWeight` of an element, and `appendChild` of a new element. */
module Edit {
  import opened Wrappers
  import opened Dom

  /** A sequence with its element at `i` taken out. */
  function RemoveAt(s: seq<NodeId>, i: nat): (r: seq<NodeId>)
    requires i < |s|
    ensures |r| == |s| - 1
    ensures forall k :: 0 <= k < i ==> r[k] == s[k]
    ensures forall k :: i <= k < |r| ==> r[k] == s[k + 1]
  {
    s[..i] + s[i + 1..]
  }

  lemma RemoveAtMembers(s: seq<NodeId>, i: nat, x: NodeId)
    requires i < |s|
    ensures x in RemoveAt(s, i) <==> exists k :: 0 <= k < |s| && k != i && s[k] == x
  {
    var r := RemoveAt(s, i);
    if x in r {
      var k :| 0 <= k < |r| && r[k] == x;
      if k < i { assert s[k] == x; } else { assert s[k + 1] == x; }
    }
    if exists k :: 0 <= k < |s| && k != i && s[k] == x {
      var k :| 0 <= k < |s| && k != i && s[k] == x;
      if k < i { assert r[k] == x; } else { assert r[k - 1] == x; }
    }
  }

  /** The rank map with every rank moved to `2 * rank + 1`, which keeps the order and
      leaves room for a new node between two neighbouring ranks and below them all. */
  function Scaled(rank: map<NodeId, nat>): (r: map<NodeId, nat>)
    ensures r.Keys == rank.Keys
    ensures forall n :: n in rank ==> r[n] == 2 * rank[n] + 1
  {
    map n | n in rank :: 2 * rank[n] + 1
  }

  /** The ranks of the nodes of `t` are ordered in `r` as they are in `t`. */
  ghost predicate RankOrderKept(t: Tree, r: Tree) {
    && t.nodes.Keys <= r.nodes.Keys
    && t.rank.Keys <= r.rank.Keys
    && forall a, b :: a in t.rank && b in t.rank ==> (r.rank[a] < r.rank[b] <==> t.rank[a] < t.rank[b])
  }

  lemma RankOrderKeptTrans(t: Tree, u: Tree, v: Tree)
    requires RankOrderKept(t, u) && RankOrderKept(u, v)
    ensures RankOrderKept(t, v)
  {
  }

  /** `c.parentNode.removeChild(c)`: `c` leaves its parent's child list and becomes the
      root of its own tree; nothing else changes. */
  function Detach(t: Tree, c: NodeId): (r: Tree)
    requires Valid(t) && c in t.parent
    ensures Valid(r)
    ensures r.nodes.Keys == t.nodes.Keys && r.rank == t.rank && r.next == t.next
    ensures r.parent == t.parent - {c}
    ensures forall m :: m in t.nodes && m != t.parent[c] ==> r.nodes[m] == t.nodes[m]
    ensures r.nodes[t.parent[c]] == t.nodes[t.parent[c]].(children := RemoveAt(Children(t, t.parent[c]), Index(t, c)))
  {
    var p := t.parent[c];
    var r := Tree(t.nodes[p := t.nodes[p].(children := RemoveAt(t.nodes[p].children, Index(t, c)))],
                  t.parent - {c}, t.rank, t.next);
    DetachValid(t, c, r);
    r
  }

  lemma DetachValid(t: Tree, c: NodeId, r: Tree)
    requires Valid(t) && c in t.parent
    requires r == Tree(t.nodes[t.parent[c] := t.nodes[t.parent[c]].(children := RemoveAt(t.nodes[t.parent[c]].children, Index(t, c)))],
                       t.parent - {c}, t.rank, t.next)
    ensures Valid(r)
  {
    DetachParents(t, c, r);
    DetachChildren(t, c, r);
    DetachDistinct(t, c, r);
  }

  lemma DetachParents(t: Tree, c: NodeId, r: Tree)
    requires Valid(t) && c in t.parent
    requires r == Tree(t.nodes[t.parent[c] := t.nodes[t.parent[c]].(children := RemoveAt(t.nodes[t.parent[c]].children, Index(t, c)))],
                       t.parent - {c}, t.rank, t.next)
    ensures RanksOk(r) && ParentsOk(r)
  {
    var p, i := t.parent[c], Index(t, c);
    var cs := t.nodes[p].children;
    forall x | x in r.parent
      ensures x in r.nodes[r.parent[x]].children
    {
      if r.parent[x] == p {
        var k := Index(t, x);
        assert cs[k] == x && k != i;
        RemoveAtMembers(cs, i, x);
      }
    }
  }

  lemma DetachChildren(t: Tree, c: NodeId, r: Tree)
    requires Valid(t) && c in t.parent
    requires r == Tree(t.nodes[t.parent[c] := t.nodes[t.parent[c]].(children := RemoveAt(t.nodes[t.parent[c]].children, Index(t, c)))],
                       t.parent - {c}, t.rank, t.next)
    ensures ChildrenOk(r)
  {
    var p, i := t.parent[c], Index(t, c);
    var cs := t.nodes[p].children;
    forall q, k | q in r.nodes && r.nodes[q].Element? && 0 <= k < |r.nodes[q].children|
      ensures r.nodes[q].children[k] in r.parent && r.parent[r.nodes[q].children[k]] == q
    {
      if q == p {
        Distinct(t, p);
        var x := r.nodes[q].children[k];
        if k < i { assert x == cs[k]; } else { assert x == cs[k + 1]; }
      } else {
        assert r.nodes[q] == t.nodes[q];
        ChildOf(t, q, k);
      }
    }
  }

  lemma DetachDistinct(t: Tree, c: NodeId, r: Tree)
    requires Valid(t) && c in t.parent
    requires r == Tree(t.nodes[t.parent[c] := t.nodes[t.parent[c]].(children := RemoveAt(t.nodes[t.parent[c]].children, Index(t, c)))],
                       t.parent - {c}, t.rank, t.next)
    ensures DistinctOk(r)
  {
    var p, i := t.parent[c], Index(t, c);
    var cs := t.nodes[p].children;
    forall q, j, k | q in r.nodes && r.nodes[q].Element? && 0 <= j < k < |r.nodes[q].children|
      ensures r.nodes[q].children[j] != r.nodes[q].children[k]
    {
      Distinct(t, q);
      if q == p {
        var ns := r.nodes[q].children;
        var j', k' := if j < i then j else j + 1, if k < i then k else k + 1;
        assert ns[j] == cs[j'] && ns[k] == cs[k'] && j' < k';
      } else {
        assert r.nodes[q] == t.nodes[q];
      }
    }
  }

  /** `n.splitText(offset)` on a text node whose length is at least `offset` (section
      4.11 of the DOM Living Standard): `n` keeps the data before `offset`, a new text
      node `t.next` gets the rest and, when `n` has a parent, is inserted right after
      `n`. */
  function SplitText(t: Tree, n: NodeId, offset: nat): (r: Tree)
    requires Valid(t) && IsText(t, n) && offset <= |t.nodes[n].data|
    ensures Valid(r) && RankOrderKept(t, r) && r.next == t.next + 1
    ensures r.nodes.Keys == t.nodes.Keys + {t.next}
    ensures r.nodes[n] == Text(t.nodes[n].data[..offset])
    ensures r.nodes[t.next] == Text(t.nodes[n].data[offset..])
    ensures r.nodes[n].data + r.nodes[t.next].data == t.nodes[n].data
    ensures n in t.parent ==> t.next in r.parent && r.parent[t.next] == t.parent[n]
    ensures n !in t.parent ==> t.next !in r.parent
  {
    var d := t.nodes[n].data;
    var nid := t.next;
    var nodes := t.nodes[n := Text(d[..offset])][nid := Text(d[offset..])];
    assert nid !in t.nodes && d[..offset] + d[offset..] == d;
    if n in t.parent then
      var p := t.parent[n];
      var i := Index(t, n);
      var cs := t.nodes[p].children;
      var r := Tree(nodes[p := t.nodes[p].(children := cs[..i + 1] + [nid] + cs[i + 1..])],
                    t.parent[nid := p], t.rank[nid := t.rank[n]], nid + 1);
      SplitAttachedValid(t, n, offset, r);
      RankCopied(t, r, n);
      r
    else
      var r := Tree(nodes, t.parent, t.rank[nid := t.rank[n]], nid + 1);
      SplitDetachedValid(t, n, offset, r);
      RankCopied(t, r, n);
      r
  }

  /** What else the split changes: with a parent, the new node is listed right
      after `n` and the parent's record changes in that list only; every other node
      keeps its record. */
  lemma SplitTextFrame(t: Tree, n: NodeId, offset: nat)
    requires Valid(t) && IsText(t, n) && offset <= |t.nodes[n].data|
    ensures var r := SplitText(t, n, offset);
      && (n in t.parent ==>
           && r.parent == t.parent[t.next := t.parent[n]]
           && Children(r, t.parent[n]) == Children(t, t.parent[n])[..Index(t, n) + 1] + [t.next]
                                           + Children(t, t.parent[n])[Index(t, n) + 1..]
           && Index(r, t.next) == Index(t, n) + 1
           && r.nodes[t.parent[n]] == t.nodes[t.parent[n]].(children := Children(r, t.parent[n]))
           && forall m :: m in t.nodes && m != n && m != t.parent[n] ==> r.nodes[m] == t.nodes[m])
      && (n !in t.parent ==>
           && r.parent == t.parent
           && forall m :: m in t.nodes && m != n ==> r.nodes[m] == t.nodes[m])
  {
    if n in t.parent {
      SplitAttachedFrame(t, n, offset);
    }
  }

  lemma SplitAttachedFrame(t: Tree, n: NodeId, offset: nat)
    requires Valid(t) && IsText(t, n) && offset <= |t.nodes[n].data| && n in t.parent
    ensures var r, p := SplitText(t, n, offset), t.parent[n];
      && r.parent == t.parent[t.next := p]
      && Children(r, p) == Children(t, p)[..Index(t, n) + 1] + [t.next] + Children(t, p)[Index(t, n) + 1..]
      && Index(r, t.next) == Index(t, n) + 1
      && r.nodes[p] == t.nodes[p].(children := Children(r, p))
      && forall m :: m in t.nodes && m != n && m != p ==> r.nodes[m] == t.nodes[m]
  {
    var r, p := SplitText(t, n, offset), t.parent[n];
    var cs := t.nodes[p].children;
    var i := Index(t, n);
    assert r.nodes[p] == t.nodes[p].(children := cs[..i + 1] + [t.next] + cs[i + 1..]);
    assert Children(r, p)[i + 1] == t.next;
    IndexUnique(r, t.next, i + 1);
  }

  /** Splitting a text node changes no element's text: the head and the tail it
      leaves are listed side by side, so every element, the split node's parent
      and each of its ancestors included, keeps its text content. */
  lemma SplitKeepsText(t: Tree, n: NodeId, offset: nat, x: NodeId)
    requires Valid(t) && IsText(t, n) && offset <= |t.nodes[n].data| && IsElement(t, x)
    ensures var r := SplitText(t, n, offset);
      IsElement(r, x) && TextContent(r, x) == TextContent(t, x)
  {
    SplitTextFrame(t, n, offset);
    SplitsKeepText(t, n, SplitText(t, n, offset), x);
  }

  /** `r` is `t` with the text node `n` split into `n` and `t.next`, the latter
      listed right after `n` when `n` has a parent; every other node keeps its
      record. */
  ghost predicate Splits(t: Tree, n: NodeId, r: Tree) {
    && Valid(t) && Valid(r) && IsText(t, n) && t.next !in t.nodes
    && IsText(r, n) && IsText(r, t.next)
    && r.nodes[n].data + r.nodes[t.next].data == t.nodes[n].data
    && (n in t.parent ==>
          var p, i := t.parent[n], Index(t, n);
          IsElement(r, p) && Children(r, p) == Children(t, p)[..i + 1] + [t.next] + Children(t, p)[i + 1..])
    && forall m :: m in t.nodes && m != n && !(n in t.parent && m == t.parent[n]) ==>
         m in r.nodes && r.nodes[m] == t.nodes[m]
  }

  /** Where the `k`-th child of `x` is listed once `n` is split: one place further
      when it comes after `n`. */
  function Shifted(t: Tree, n: NodeId, x: NodeId, k: nat): nat
    requires Valid(t)
  {
    if n in t.parent && x == t.parent[n] && k > Index(t, n) then k + 1 else k
  }

  lemma {:induction false} SplitsKeepText(t: Tree, n: NodeId, r: Tree, x: NodeId)
    requires Splits(t, n, r) && IsElement(t, x)
    ensures IsElement(r, x) && TextContent(r, x) == TextContent(t, x)
    decreases t.rank[x], 1
  {
    SplitsShape(t, n, r, x);
    SplitsChildrenText(t, n, r, x, |Children(t, x)|);
  }

  /** The text of the first `k` children of an element `x`; past the split node the
      same text is that of one more child of `x` in the split tree. */
  lemma {:induction false} SplitsChildrenText(t: Tree, n: NodeId, r: Tree, x: NodeId, k: nat)
    requires Splits(t, n, r) && IsElement(t, x) && k <= |Children(t, x)|
    ensures IsElement(r, x) && Shifted(t, n, x, k) <= |Children(r, x)|
    ensures ChildrenText(r, x, Shifted(t, n, x, k)) == ChildrenText(t, x, k)
    decreases t.rank[x], 0, k
  {
    SplitsShape(t, n, r, x);
    if k > 0 {
      SplitsChildrenText(t, n, r, x, k - 1);
      ChildOf(t, x, k - 1);
      var c := Children(t, x)[k - 1];
      if n in t.parent && x == t.parent[n] && k - 1 == Index(t, n) {
        SplitsAtNode(t, n, r, x, k);
      } else {
        if IsElement(t, c) {
          SplitsKeepText(t, n, r, c);
        }
        SplitsStep(t, n, r, x, k);
      }
    }
  }

  /** The child list of `x` in the split tree: one longer when `x` is the parent of
      `n`, the same otherwise. */
  lemma SplitsShape(t: Tree, n: NodeId, r: Tree, x: NodeId)
    requires Splits(t, n, r) && IsElement(t, x)
    ensures IsElement(r, x)
    ensures |Children(r, x)| == Shifted(t, n, x, |Children(t, x)|)
  {
    if n in t.parent && x == t.parent[n] {
      assert |Children(t, x)| > Index(t, n);
    } else {
      assert x != n && r.nodes[x] == t.nodes[x];
    }
  }

  /** At the split node itself, its head and the new tail together hold its text. */
  lemma SplitsAtNode(t: Tree, n: NodeId, r: Tree, x: NodeId, k: nat)
    requires Splits(t, n, r)
    requires n in t.parent && x == t.parent[n] && k == Index(t, n) + 1
    requires ChildrenText(r, x, k - 1) == ChildrenText(t, x, k - 1)
    ensures Shifted(t, n, x, k) == k + 1 && k + 1 <= |Children(r, x)|
    ensures ChildrenText(r, x, k + 1) == ChildrenText(t, x, k)
  {
    assert Children(r, x)[k - 1] == n && Children(r, x)[k] == t.next;
    calc {
      ChildrenText(r, x, k + 1);
      ChildrenText(r, x, k) + TextContent(r, t.next);
      ChildrenText(r, x, k - 1) + TextContent(r, n) + TextContent(r, t.next);
      ChildrenText(t, x, k - 1) + (r.nodes[n].data + r.nodes[t.next].data);
      ChildrenText(t, x, k - 1) + TextContent(t, n);
    }
  }

  /** One more child past the split node, or in another element, adds the same text
      to both sides. */
  lemma SplitsStep(t: Tree, n: NodeId, r: Tree, x: NodeId, k: nat)
    requires Splits(t, n, r) && IsElement(t, x) && 0 < k <= |Children(t, x)|
    requires !(n in t.parent && x == t.parent[n] && k - 1 == Index(t, n))
    requires Shifted(t, n, x, k - 1) <= |Children(r, x)|
    requires ChildrenText(r, x, Shifted(t, n, x, k - 1)) == ChildrenText(t, x, k - 1)
    requires var c := Children(t, x)[k - 1];
      IsElement(t, c) ==> IsElement(r, c) && TextContent(r, c) == TextContent(t, c)
    ensures Shifted(t, n, x, k) <= |Children(r, x)|
    ensures ChildrenText(r, x, Shifted(t, n, x, k)) == ChildrenText(t, x, k)
  {
    SplitsPastOther(t, n, r, x, k);
  }

  /** Any other child keeps its record or is an element, and is listed at its
      shifted place. */
  lemma SplitsPastOther(t: Tree, n: NodeId, r: Tree, x: NodeId, k: nat)
    requires Splits(t, n, r) && IsElement(t, x) && 0 < k <= |Children(t, x)|
    requires !(n in t.parent && x == t.parent[n] && k - 1 == Index(t, n))
    ensures var c, k' := Children(t, x)[k - 1], Shifted(t, n, x, k);
      && 0 < k' <= |Children(r, x)| && Shifted(t, n, x, k - 1) == k' - 1
      && Children(r, x)[k' - 1] == c && c in t.nodes && c in r.nodes
      && (IsElement(t, c) || TextContent(r, c) == TextContent(t, c))
  {
    ChildOf(t, x, k - 1);
    var c := Children(t, x)[k - 1];
    if n in t.parent && x == t.parent[n] {
      SplitsPastOtherInParent(t, n, r, x, k);
    } else {
      assert x != n && r.nodes[x] == t.nodes[x];
    }
    if !IsElement(t, c) {
      SplitsTextKept(t, n, r, c);
    }
  }

  lemma SplitsPastOtherInParent(t: Tree, n: NodeId, r: Tree, x: NodeId, k: nat)
    requires Splits(t, n, r) && n in t.parent && x == t.parent[n]
    requires 0 < k <= |Children(t, x)| && k - 1 != Index(t, n)
    ensures Children(t, x)[k - 1] != n
    ensures var k' := Shifted(t, n, x, k);
      && 0 < k' <= |Children(r, x)| && Shifted(t, n, x, k - 1) == k' - 1
      && Children(r, x)[k' - 1] == Children(t, x)[k - 1]
  {
    Distinct(t, x);
    assert ChildAt(t, x, k - 1) != ChildAt(t, x, Index(t, n));
  }

  /** A text node other than the split one keeps its data. */
  lemma SplitsTextKept(t: Tree, n: NodeId, r: Tree, c: NodeId)
    requires Splits(t, n, r) && c in t.nodes && !IsElement(t, c) && c != n
    ensures c in r.nodes && TextContent(r, c) == TextContent(t, c)
  {
    assert !(n in t.parent && c == t.parent[n]);
    assert r.nodes[c] == t.nodes[c];
  }

  /** A new node ranked as `n` leaves the order of the old ranks as it was. */
  lemma RankCopied(t: Tree, r: Tree, n: NodeId)
    requires RanksOk(t) && n in t.nodes && t.nodes.Keys <= r.nodes.Keys
    requires r.rank == t.rank[t.next := t.rank[n]]
    ensures RankOrderKept(t, r)
  {
    assert t.next !in t.rank;
  }

  lemma SplitAttachedValid(t: Tree, n: NodeId, offset: nat, r: Tree)
    requires Valid(t) && IsText(t, n) && offset <= |t.nodes[n].data| && n in t.parent
    requires var p, i, cs, d := t.parent[n], Index(t, n), t.nodes[t.parent[n]].children, t.nodes[n].data;
      r == Tree(t.nodes[n := Text(d[..offset])][t.next := Text(d[offset..])]
                  [p := t.nodes[p].(children := cs[..i + 1] + [t.next] + cs[i + 1..])],
                t.parent[t.next := p], t.rank[t.next := t.rank[n]], t.next + 1)
    ensures Valid(r)
  {
    var p := t.parent[n];
    assert t.next !in t.nodes && r.nodes[t.next].Text?;
    forall q | q in t.nodes && q != p && r.nodes[q].Element?
      ensures r.nodes[q] == t.nodes[q]
    {
      assert q != n;
    }
    assert Inserted(t, r, p, Index(t, n) + 1, t.next);
    forall x | x in t.parent
      ensures r.rank[x] < r.rank[t.parent[x]]
    {
      assert x != t.next && t.parent[x] != t.next;
    }
    InsertedValid(t, r, p, Index(t, n) + 1, t.next);
  }

  lemma SplitDetachedValid(t: Tree, n: NodeId, offset: nat, r: Tree)
    requires Valid(t) && IsText(t, n) && offset <= |t.nodes[n].data| && n !in t.parent
    requires r == Tree(t.nodes[n := Text(t.nodes[n].data[..offset])][t.next := Text(t.nodes[n].data[offset..])],
                       t.parent, t.rank[t.next := t.rank[n]], t.next + 1)
    ensures Valid(r)
  {
    assert RanksOk(r);
    forall x | x in r.parent
      ensures r.parent[x] != n && r.parent[x] != t.next && x != t.next
    {
    }
    assert ParentsOk(r);
    forall q, k | q in r.nodes && r.nodes[q].Element? && 0 <= k < |r.nodes[q].children|
      ensures r.nodes[q].children[k] in r.parent && r.parent[r.nodes[q].children[k]] == q
    {
      assert r.nodes[q] == t.nodes[q];
      ChildOf(t, q, k);
    }
    forall q, i, j | q in r.nodes && r.nodes[q].Element? && 0 <= i < j < |r.nodes[q].children|
      ensures ChildAt(r, q, i) != ChildAt(r, q, j)
    {
      assert r.nodes[q] == t.nodes[q];
      Distinct(t, q);
    }
  }

  /** `r` lists a node `s` that `t` does not have at position `i` among the children
      of the element `p`, has `s` as a text or a childless element, and keeps the record
      of every other element of `t`. */
  ghost predicate Inserted(t: Tree, r: Tree, p: NodeId, i: nat, s: NodeId) {
    && IsElement(t, p) && i <= |t.nodes[p].children| && s !in t.nodes
    && r.nodes.Keys == t.nodes.Keys + {s}
    && r.nodes[p] == t.nodes[p].(children := t.nodes[p].children[..i] + [s] + t.nodes[p].children[i..])
    && r.parent == t.parent[s := p]
    && (r.nodes[s].Text? || r.nodes[s].children == [])
    && (forall q :: q in t.nodes && q != p ==>
          r.nodes[q] == t.nodes[q] || (t.nodes[q].Text? && r.nodes[q].Text?))
  }

  /** An insertion that ranks `s` below `p` and keeps every parent above its child. */
  lemma InsertedValid(t: Tree, r: Tree, p: NodeId, i: nat, s: NodeId)
    requires Valid(t) && Inserted(t, r, p, i, s) && RanksOk(r)
    requires r.rank[s] < r.rank[p]
    requires forall x :: x in t.parent ==> r.rank[x] < r.rank[t.parent[x]]
    ensures Valid(r)
  {
    InsertedParents(t, r, p, i, s);
    InsertedChildren(t, r, p, i, s);
    InsertedDistinct(t, r, p, i, s);
  }

  lemma InsertedParents(t: Tree, r: Tree, p: NodeId, i: nat, s: NodeId)
    requires Valid(t) && Inserted(t, r, p, i, s) && RanksOk(r)
    requires r.rank[s] < r.rank[p]
    requires forall x :: x in t.parent ==> r.rank[x] < r.rank[t.parent[x]]
    ensures ParentsOk(r)
  {
    var cs := t.nodes[p].children;
    var ns := cs[..i] + [s] + cs[i..];
    assert ns[i] == s;
    forall x | x in r.parent
      ensures x in r.nodes && r.parent[x] in r.nodes && r.nodes[r.parent[x]].Element?
      ensures x in r.nodes[r.parent[x]].children && r.rank[x] < r.rank[r.parent[x]]
    {
      if x != s {
        var q := t.parent[x];
        if q == p {
          var k := Index(t, x);
          if k < i { assert ns[k] == x; } else { assert ns[k + 1] == x; }
        } else {
          assert r.nodes[q] == t.nodes[q];
        }
      }
    }
  }

  lemma InsertedChildren(t: Tree, r: Tree, p: NodeId, i: nat, s: NodeId)
    requires Valid(t) && Inserted(t, r, p, i, s)
    ensures ChildrenOk(r)
  {
    var cs := t.nodes[p].children;
    var ns := cs[..i] + [s] + cs[i..];
    forall k | 0 <= k < |ns|
      ensures ns[k] in r.parent && r.parent[ns[k]] == p
    {
      if k < i { assert ns[k] == cs[k]; ChildOf(t, p, k); }
      else if k > i { assert ns[k] == cs[k - 1]; ChildOf(t, p, k - 1); }
      else { assert ns[k] == s; }
    }
    forall q, k | q in r.nodes && r.nodes[q].Element? && 0 <= k < |r.nodes[q].children|
      ensures r.nodes[q].children[k] in r.parent && r.parent[r.nodes[q].children[k]] == q
    {
      if q != p && q != s {
        assert r.nodes[q] == t.nodes[q];
        ChildOf(t, q, k);
      }
    }
  }

  lemma InsertedDistinct(t: Tree, r: Tree, p: NodeId, i: nat, s: NodeId)
    requires Valid(t) && Inserted(t, r, p, i, s)
    ensures DistinctOk(r)
  {
    var cs := t.nodes[p].children;
    var ns := cs[..i] + [s] + cs[i..];
    forall q, j, k | q in r.nodes && r.nodes[q].Element? && 0 <= j < k < |r.nodes[q].children|
      ensures r.nodes[q].children[j] != r.nodes[q].children[k]
    {
      Distinct(t, q);
      if q == p {
        var j' := if j < i then j else j - 1;
        var k' := if k < i then k else k - 1;
        if j == i { ChildOf(t, p, k'); assert ns[k] == cs[k']; }
        else if k == i { ChildOf(t, p, j'); assert ns[j] == cs[j']; }
        else { assert ns[j] == cs[j'] && ns[k] == cs[k'] && j' < k'; }
      } else if q != s {
        assert r.nodes[q] == t.nodes[q];
      }
    }
  }

  /** `n.style.fontWeight = weight` on an element. */
  function SetFontWeight(t: Tree, n: NodeId, weight: string): (r: Tree)
    requires Valid(t) && IsElement(t, n)
    ensures Valid(r) && RankOrderKept(t, r)
    ensures r == t.(nodes := t.nodes[n := t.nodes[n].(fontWeight := weight)])
    ensures forall m :: Children(r, m) == Children(t, m)
  {
    var r := t.(nodes := t.nodes[n := t.nodes[n].(fontWeight := weight)]);
    FontWeightValid(t, n, weight, r);
    r
  }

  lemma FontWeightValid(t: Tree, n: NodeId, weight: string, r: Tree)
    requires Valid(t) && IsElement(t, n)
    requires r == t.(nodes := t.nodes[n := t.nodes[n].(fontWeight := weight)])
    ensures Valid(r) && forall m :: Children(r, m) == Children(t, m)
  {
    assert forall m :: m in t.nodes ==> Children(r, m) == Children(t, m);
    assert RanksOk(r);
    assert ParentsOk(r);
    assert ChildrenOk(r);
    forall q, i, j | q in r.nodes && r.nodes[q].Element? && 0 <= i < j < |r.nodes[q].children|
      ensures ChildAt(r, q, i) != ChildAt(r, q, j)
    {
      Distinct(t, q);
    }
  }

  /** The tree `WrapInSpan` builds. */
  ghost predicate WrapShape(t: Tree, n: NodeId, classes: set<string>, weight: string, r: Tree)
    requires Valid(t) && n in t.parent
  {
    var p, i, s := t.parent[n], Index(t, n), t.next;
    r == Tree(t.nodes[p := t.nodes[p].(children := t.nodes[p].children[i := s])]
                [s := Element("SPAN", classes, weight, map[], [n])],
              t.parent[n := s][s := p], Scaled(t.rank)[s := 2 * t.rank[n] + 2], s + 1)
  }

  /** A fresh span `t.next` takes the place of `n` among its parent's children and
      holds `n` as its only child (rte.js:216-222: the span is appended to the parent,
      moved in front of `n`, and `n` is moved into it). */
  function WrapInSpan(t: Tree, n: NodeId, classes: set<string>, weight: string): (r: Tree)
    requires Valid(t) && n in t.parent
    ensures Valid(r) && RankOrderKept(t, r) && r.next == t.next + 1
    ensures r.nodes.Keys == t.nodes.Keys + {t.next}
    ensures r.nodes[t.next] == Element("SPAN", classes, weight, map[], [n])
    ensures r.nodes[t.parent[n]] == t.nodes[t.parent[n]].(children := Children(t, t.parent[n])[Index(t, n) := t.next])
    ensures r.parent == t.parent[n := t.next][t.next := t.parent[n]]
    ensures forall m :: m in t.nodes && m != t.parent[n] ==> r.nodes[m] == t.nodes[m]
  {
    var p, i, s := t.parent[n], Index(t, n), t.next;
    var r := Tree(t.nodes[p := t.nodes[p].(children := t.nodes[p].children[i := s])]
                    [s := Element("SPAN", classes, weight, map[], [n])],
                  t.parent[n := s][s := p], Scaled(t.rank)[s := 2 * t.rank[n] + 2], s + 1);
    assert WrapShape(t, n, classes, weight, r);
    WrapFrame(t, n, classes, weight, r);
    WrapParents(t, n, classes, weight, r);
    WrapChildren(t, n, classes, weight, r);
    WrapDistinct(t, n, classes, weight, r);
    r
  }

  lemma WrapFrame(t: Tree, n: NodeId, classes: set<string>, weight: string, r: Tree)
    requires Valid(t) && n in t.parent && WrapShape(t, n, classes, weight, r)
    ensures r.nodes.Keys == t.nodes.Keys + {t.next}
    ensures r.nodes[t.next] == Element("SPAN", classes, weight, map[], [n])
    ensures r.nodes[t.parent[n]] == t.nodes[t.parent[n]].(children := Children(t, t.parent[n])[Index(t, n) := t.next])
    ensures forall m :: m in t.nodes && m != t.parent[n] ==> r.nodes[m] == t.nodes[m]
  {
    assert t.next !in t.nodes;
  }

  lemma WrapParents(t: Tree, n: NodeId, classes: set<string>, weight: string, r: Tree)
    requires Valid(t) && n in t.parent && WrapShape(t, n, classes, weight, r)
    ensures RanksOk(r) && ParentsOk(r) && RankOrderKept(t, r)
  {
    var p, i, s := t.parent[n], Index(t, n), t.next;
    var cs := t.nodes[p].children;
    assert RanksOk(r);
    forall x | x in r.parent
      ensures x in r.nodes && r.parent[x] in r.nodes && r.nodes[r.parent[x]].Element?
      ensures x in r.nodes[r.parent[x]].children && r.rank[x] < r.rank[r.parent[x]]
    {
      if x == s {
        assert cs[i := s][i] == s;
      } else if x != n {
        var q := t.parent[x];
        assert q != s;
        if q == p {
          var k := Index(t, x);
          assert k != i && cs[i := s][k] == x;
        } else {
          assert r.nodes[q] == t.nodes[q];
        }
      }
    }
  }

  lemma WrapChildren(t: Tree, n: NodeId, classes: set<string>, weight: string, r: Tree)
    requires Valid(t) && n in t.parent && WrapShape(t, n, classes, weight, r)
    ensures ChildrenOk(r)
  {
    var p, i, s := t.parent[n], Index(t, n), t.next;
    var cs := t.nodes[p].children;
    forall q, k | q in r.nodes && r.nodes[q].Element? && 0 <= k < |r.nodes[q].children|
      ensures r.nodes[q].children[k] in r.parent && r.parent[r.nodes[q].children[k]] == q
    {
      if q == p {
        if k != i { ChildOf(t, p, k); assert cs[k] != n && cs[k] != s; }
      } else if q != s {
        assert r.nodes[q] == t.nodes[q];
        ChildOf(t, q, k);
        assert t.nodes[q].children[k] != n && t.nodes[q].children[k] != s;
      }
    }
  }

  lemma WrapDistinct(t: Tree, n: NodeId, classes: set<string>, weight: string, r: Tree)
    requires Valid(t) && n in t.parent && WrapShape(t, n, classes, weight, r)
    ensures DistinctOk(r)
  {
    var p, i, s := t.parent[n], Index(t, n), t.next;
    var cs := t.nodes[p].children;
    forall q, j, k | q in r.nodes && r.nodes[q].Element? && 0 <= j < k < |r.nodes[q].children|
      ensures r.nodes[q].children[j] != r.nodes[q].children[k]
    {
      Distinct(t, q);
      if q == p {
        if j == i { ChildOf(t, p, k); } else if k == i { ChildOf(t, p, j); }
      } else if q != s {
        assert r.nodes[q] == t.nodes[q];
      }
    }
  }

  /** The tree `ReplaceWithSpan` builds. */
  ghost predicate ReplaceShape(t: Tree, n: NodeId, weight: string, r: Tree)
    requires Valid(t) && n in t.parent && IsElement(t, n)
  {
    var p, i, s := t.parent[n], Index(t, n), t.next;
    r == Tree(t.nodes[p := t.nodes[p].(children := t.nodes[p].children[i := s])]
                [n := t.nodes[n].(children := [])]
                [s := Element("SPAN", {}, weight, map[], t.nodes[n].children)],
              MovedParents(t, n, s), t.rank[s := t.rank[n]], s + 1)
  }

  /** The parent map once `n`'s children have moved to `s` and `s` has taken `n`'s place. */
  function MovedParents(t: Tree, n: NodeId, s: NodeId): map<NodeId, NodeId>
    requires n in t.parent
  {
    (map x | x in t.parent && x != n :: if t.parent[x] == n then s else t.parent[x])[s := t.parent[n]]
  }

  /** rte.js:199-203: a fresh span `t.next` with font weight `weight` replaces the
      element `n` in its parent and receives `n`'s children (the source copies them
      through `innerHTML`; here they are moved), and `n` is left detached. */
  function ReplaceWithSpan(t: Tree, n: NodeId, weight: string): (r: Tree)
    requires Valid(t) && n in t.parent && IsElement(t, n)
    ensures Valid(r) && RankOrderKept(t, r) && r.next == t.next + 1
    ensures r.nodes.Keys == t.nodes.Keys + {t.next}
    ensures r.nodes[t.next] == Element("SPAN", {}, weight, map[], Children(t, n))
    ensures r.nodes[t.parent[n]] == t.nodes[t.parent[n]].(children := Children(t, t.parent[n])[Index(t, n) := t.next])
    ensures r.nodes[n] == t.nodes[n].(children := [])
    ensures r.parent == MovedParents(t, n, t.next)
    ensures forall m :: m in t.nodes && m != t.parent[n] && m != n ==> r.nodes[m] == t.nodes[m]
  {
    var p, i, s := t.parent[n], Index(t, n), t.next;
    ChildOf(t, p, i);
    var r := Tree(t.nodes[p := t.nodes[p].(children := t.nodes[p].children[i := s])]
                    [n := t.nodes[n].(children := [])]
                    [s := Element("SPAN", {}, weight, map[], t.nodes[n].children)],
                  MovedParents(t, n, s), t.rank[s := t.rank[n]], s + 1);
    assert ReplaceShape(t, n, weight, r);
    ReplaceFrame(t, n, weight, r);
    ReplaceParents(t, n, weight, r);
    ReplaceChildren(t, n, weight, r);
    ReplaceDistinct(t, n, weight, r);
    r
  }

  lemma ReplaceFrame(t: Tree, n: NodeId, weight: string, r: Tree)
    requires Valid(t) && n in t.parent && IsElement(t, n) && ReplaceShape(t, n, weight, r)
    ensures r.nodes.Keys == t.nodes.Keys + {t.next}
    ensures r.nodes[t.next] == Element("SPAN", {}, weight, map[], Children(t, n))
    ensures r.nodes[t.parent[n]] == t.nodes[t.parent[n]].(children := Children(t, t.parent[n])[Index(t, n) := t.next])
    ensures r.nodes[n] == t.nodes[n].(children := [])
    ensures forall m :: m in t.nodes && m != t.parent[n] && m != n ==> r.nodes[m] == t.nodes[m]
  {
    assert t.next !in t.nodes && t.parent[n] != n;
  }

  lemma ReplaceParents(t: Tree, n: NodeId, weight: string, r: Tree)
    requires Valid(t) && n in t.parent && IsElement(t, n) && ReplaceShape(t, n, weight, r)
    ensures RanksOk(r) && ParentsOk(r) && RankOrderKept(t, r)
  {
    var p, i, s := t.parent[n], Index(t, n), t.next;
    var cs := t.nodes[p].children;
    assert p != n;
    assert RanksOk(r);
    forall x | x in r.parent
      ensures x in r.nodes && r.parent[x] in r.nodes && r.nodes[r.parent[x]].Element?
      ensures x in r.nodes[r.parent[x]].children && r.rank[x] < r.rank[r.parent[x]]
    {
      if x == s {
        assert cs[i := s][i] == s;
      } else {
        var q := t.parent[x];
        assert x != n && q != s;
        if q == n {
          assert r.parent[x] == s;
        } else if q == p {
          var k := Index(t, x);
          assert k != i && cs[i := s][k] == x;
        } else {
          assert r.nodes[q] == t.nodes[q];
        }
      }
    }
  }

  lemma ReplaceChildren(t: Tree, n: NodeId, weight: string, r: Tree)
    requires Valid(t) && n in t.parent && IsElement(t, n) && ReplaceShape(t, n, weight, r)
    ensures ChildrenOk(r)
  {
    var p, i, s := t.parent[n], Index(t, n), t.next;
    var cs := t.nodes[p].children;
    assert p != n;
    forall q, k | q in r.nodes && r.nodes[q].Element? && 0 <= k < |r.nodes[q].children|
      ensures r.nodes[q].children[k] in r.parent && r.parent[r.nodes[q].children[k]] == q
    {
      if q == p {
        if k != i { ChildOf(t, p, k); assert cs[k] != n && cs[k] != s; }
      } else if q == s {
        ChildOf(t, n, k);
      } else if q != n {
        assert r.nodes[q] == t.nodes[q];
        ChildOf(t, q, k);
        assert t.nodes[q].children[k] != n && t.nodes[q].children[k] != s;
      }
    }
  }

  lemma ReplaceDistinct(t: Tree, n: NodeId, weight: string, r: Tree)
    requires Valid(t) && n in t.parent && IsElement(t, n) && ReplaceShape(t, n, weight, r)
    ensures DistinctOk(r)
  {
    var p, i, s := t.parent[n], Index(t, n), t.next;
    assert p != n;
    Distinct(t, n);
    forall q, j, k | q in r.nodes && r.nodes[q].Element? && 0 <= j < k < |r.nodes[q].children|
      ensures r.nodes[q].children[j] != r.nodes[q].children[k]
    {
      Distinct(t, q);
      if q == p {
        if j == i { ChildOf(t, p, k); } else if k == i { ChildOf(t, p, j); }
      } else if q != s && q != n {
        assert r.nodes[q] == t.nodes[q];
      }
    }
  }

  /** `p.appendChild(x)` for a freshly created element `x = t.next` without children. */
  function AppendElement(t: Tree, p: NodeId, name: string, attributes: map<string, string>): (r: Tree)
    requires Valid(t) && IsElement(t, p)
    ensures Valid(r) && RankOrderKept(t, r) && r.next == t.next + 1
    ensures r.nodes.Keys == t.nodes.Keys + {t.next}
    ensures r.nodes[t.next] == Element(name, {}, "", attributes, [])
    ensures r.nodes[p] == t.nodes[p].(children := Children(t, p) + [t.next])
    ensures r.parent == t.parent[t.next := p]
    ensures forall m :: m in t.nodes && m != p ==> r.nodes[m] == t.nodes[m]
  {
    var s := t.next;
    var cs := t.nodes[p].children;
    var r := Tree(t.nodes[p := t.nodes[p].(children := cs + [s])][s := Element(name, {}, "", attributes, [])],
                  t.parent[s := p], Scaled(t.rank)[s := 0], s + 1);
    AppendValid(t, p, name, attributes, r);
    AppendShape(t, p, name, attributes, r);
    r
  }

  lemma AppendValid(t: Tree, p: NodeId, name: string, attributes: map<string, string>, r: Tree)
    requires Valid(t) && IsElement(t, p)
    requires r == Tree(t.nodes[p := t.nodes[p].(children := t.nodes[p].children + [t.next])]
                         [t.next := Element(name, {}, "", attributes, [])],
                       t.parent[t.next := p], Scaled(t.rank)[t.next := 0], t.next + 1)
    ensures Valid(r) && RankOrderKept(t, r)
  {
    var s, cs := t.next, t.nodes[p].children;
    assert s !in t.nodes;
    assert Inserted(t, r, p, |cs|, s) by {
      assert cs + [s] == cs[..|cs|] + [s] + cs[|cs|..];
      forall q | q in t.nodes && q != p
        ensures r.nodes[q] == t.nodes[q]
      {
      }
    }
    assert RanksOk(r);
    InsertedValid(t, r, p, |cs|, s);
  }

  /** What `AppendElement` changes besides keeping the tree valid. */
  lemma AppendShape(t: Tree, p: NodeId, name: string, attributes: map<string, string>, r: Tree)
    requires Valid(t) && IsElement(t, p)
    requires r == Tree(t.nodes[p := t.nodes[p].(children := t.nodes[p].children + [t.next])]
                         [t.next := Element(name, {}, "", attributes, [])],
                       t.parent[t.next := p], Scaled(t.rank)[t.next := 0], t.next + 1)
    ensures r.next == t.next + 1
    ensures r.nodes.Keys == t.nodes.Keys + {t.next}
    ensures r.nodes[t.next] == Element(name, {}, "", attributes, [])
    ensures r.nodes[p] == t.nodes[p].(children := Children(t, p) + [t.next])
    ensures r.parent == t.parent[t.next := p]
    ensures forall m :: m in t.nodes && m != p ==> r.nodes[m] == t.nodes[m]
  {
    assert t.next !in t.nodes;
  }
}
