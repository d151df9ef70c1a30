/** The backspace controller of rte.js:427-541: `deletePreviousNode`, its backward
    climb `getPreviousNode` and the empty-DIV pruning `cleanEditor`. */
module Backspace {
  import opened Wrappers
  import opened Dom
  import opened Edit

  // ---------------------------------------------------------------------------
  // getPreviousNode (rte.js:513-527)

  /** The climb of `getPreviousNode` from `a[j]`, where `a` are the inclusive
      ancestors of the start node: the previous sibling of `a[j]` if there is one,
      otherwise `editor` if the parent is `editor`, otherwise the climb from the
      parent, and `None` once the parent chain runs out. */
  function Climb(t: Tree, a: seq<NodeId>, editor: NodeId, j: nat): (r: Option<NodeId>)
    requires Valid(t) && j < |a| && forall i :: 0 <= i < |a| ==> a[i] in t.nodes
    ensures r.Some? ==> r.value in t.nodes
    decreases |a| - j
  {
    match PreviousSibling(t, a[j])
    case Some(p) => Some(p)
    case None =>
      if j + 1 == |a| then None
      else if a[j + 1] == editor then Some(editor)
      else Climb(t, a, editor, j + 1)
  }

  /** `getPreviousNode(node, editor)`: the previous sibling when there is one; `null`
      only when no inclusive ancestor of `node` has a previous sibling and no proper
      ancestor is `editor` (the converse is `PreviousNodeCases`). */
  function PreviousNode(t: Tree, node: NodeId, editor: NodeId): (r: Option<NodeId>)
    requires Valid(t) && node in t.nodes
    ensures r.Some? ==> r.value in t.nodes
    ensures PreviousSibling(t, node).Some? ==> r == PreviousSibling(t, node)
    ensures var a := Ancestors(t, node);
      r.None? ==> (forall i :: 0 <= i < |a| ==> PreviousSibling(t, a[i]).None?) &&
                  (forall i :: 0 < i < |a| ==> a[i] != editor)
  {
    var a := Ancestors(t, node);
    ClimbCases(t, a, editor, 0);
    Climb(t, a, editor, 0)
  }

  /** `getPreviousNode` returns `null` exactly when no inclusive ancestor of `node`
      has a previous sibling and no proper ancestor is `editor`. */
  lemma PreviousNodeCases(t: Tree, node: NodeId, editor: NodeId)
    requires Valid(t) && node in t.nodes
    ensures var a := Ancestors(t, node);
      PreviousNode(t, node, editor).None? <==>
        (forall i :: 0 <= i < |a| ==> PreviousSibling(t, a[i]).None?) &&
        (forall i :: 0 < i < |a| ==> a[i] != editor)
  {
    ClimbCases(t, Ancestors(t, node), editor, 0);
  }

  /** The climb from `a[j]` yields `None` exactly when no node from `a[j]` up has a
      previous sibling and none above the start is `editor`. */
  lemma {:induction false} ClimbCases(t: Tree, a: seq<NodeId>, editor: NodeId, j: nat)
    requires Valid(t) && j < |a| && forall i :: 0 <= i < |a| ==> a[i] in t.nodes
    ensures Climb(t, a, editor, j).None? <==>
              (forall i :: j <= i < |a| ==> PreviousSibling(t, a[i]).None?) &&
              (forall i :: j < i < |a| ==> a[i] != editor)
    decreases |a| - j
  {
    if PreviousSibling(t, a[j]).None? && j + 1 < |a| && a[j + 1] != editor {
      ClimbCases(t, a, editor, j + 1);
    }
  }

  /** Otherwise it stops at the first `k` where `a[k]` has a previous sibling or,
      above the start, `a[k]` is `editor`. */
  lemma {:induction false} ClimbStops(t: Tree, a: seq<NodeId>, editor: NodeId, j: nat)
    requires Valid(t) && j < |a| && forall i :: 0 <= i < |a| ==> a[i] in t.nodes
    ensures Climb(t, a, editor, j).Some? ==> exists k :: StopsAt(t, a, editor, j, k)
    decreases |a| - j
  {
    var r := Climb(t, a, editor, j);
    if PreviousSibling(t, a[j]).Some? {
      assert StopsAt(t, a, editor, j, j);
    } else if j + 1 == |a| {
    } else if a[j + 1] == editor {
      assert StopsAt(t, a, editor, j, j + 1);
    } else {
      ClimbStops(t, a, editor, j + 1);
      if r.Some? {
        var k :| StopsAt(t, a, editor, j + 1, k);
        assert StopsAt(t, a, editor, j, k);
      }
    }
  }

  /** The climb from `a[j]` stops at `a[k]`: no node from `a[j]` to below `a[k]` has
      a previous sibling, none above the start and below `a[k]` is `editor`, and the
      result is `editor` when `a[k]` is the editor above the start, otherwise the
      previous sibling of `a[k]`. */
  ghost predicate StopsAt(t: Tree, a: seq<NodeId>, editor: NodeId, j: nat, k: nat)
    requires Valid(t) && j < |a| && forall i :: 0 <= i < |a| ==> a[i] in t.nodes
  {
    && j <= k < |a|
    && (forall i :: j <= i < k ==> PreviousSibling(t, a[i]).None?)
    && (forall i :: j < i < k ==> a[i] != editor)
    && if j < k && a[k] == editor then Climb(t, a, editor, j) == Some(editor)
       else Climb(t, a, editor, j) == PreviousSibling(t, a[k])
  }

  /** `getPreviousNode(node, editor)`, with `None` for `null`. */
  method GetPreviousNode(t: Tree, node: NodeId, editor: NodeId) returns (r: Option<NodeId>)
    requires Valid(t) && node in t.nodes
    ensures r == PreviousNode(t, node, editor)
  {
    ghost var a := Ancestors(t, node);
    ghost var k := 0;
    var prev := PreviousSibling(t, node);
    var parent := Parent(t, node);
    while prev.None?
      invariant 0 <= k < |a|
      invariant prev == PreviousSibling(t, a[k])
      invariant parent == if k + 1 < |a| then Some(a[k + 1]) else None
      invariant Climb(t, a, editor, k) == Climb(t, a, editor, 0)
      decreases |a| - k
    {
      if parent.None? {
        return None;
      }
      if parent.value == editor {
        return parent;
      }
      prev := PreviousSibling(t, parent.value);
      parent := Parent(t, parent.value);
      k := k + 1;
    }
    return prev;
  }

  // ---------------------------------------------------------------------------
  // cleanEditor (rte.js:534-541)

  predicate EmptyDiv(t: Tree, n: NodeId) {
    IsElement(t, n) && t.nodes[n].nodeName == "DIV" && t.nodes[n].children == []
  }

  /** The children a single pass of `cleanEditor` keeps. After a removal the loop
      index still advances, so the child that moved into the removed one's slot is
      kept without being examined. */
  function Kept(t: Tree, cs: seq<NodeId>): seq<NodeId>
  {
    if cs == [] then []
    else if EmptyDiv(t, cs[0]) then (if |cs| == 1 then [] else [cs[1]] + Kept(t, cs[2..]))
    else [cs[0]] + Kept(t, cs[1..])
  }

  /** `a` is `b` with some elements left out. */
  predicate Subsequence(a: seq<NodeId>, b: seq<NodeId>)
    decreases |b|
  {
    a == [] || (b != [] && (Subsequence(a, b[1..]) || (a[0] == b[0] && Subsequence(a[1..], b[1..]))))
  }

  /** The kept children keep their relative order. */
  lemma {:induction false} KeptIsSubsequence(t: Tree, cs: seq<NodeId>)
    ensures Subsequence(Kept(t, cs), cs)
    decreases |cs|
  {
    if cs == [] {
    } else if EmptyDiv(t, cs[0]) {
      if |cs| > 1 {
        KeptIsSubsequence(t, cs[2..]);
        assert cs[1..][1..] == cs[2..];
        assert Subsequence(Kept(t, cs), cs[1..]);
      }
    } else {
      KeptIsSubsequence(t, cs[1..]);
    }
  }

  /** Only empty DIVs are pruned: every other child is kept, and every kept node was a
      child. */
  lemma {:induction false} KeptMembers(t: Tree, cs: seq<NodeId>, x: NodeId)
    ensures x in cs && !EmptyDiv(t, x) ==> x in Kept(t, cs)
    ensures x in Kept(t, cs) ==> x in cs
    decreases |cs|
  {
    if cs != [] {
      if EmptyDiv(t, cs[0]) {
        if |cs| > 1 {
          KeptMembers(t, cs[2..], x);
          assert cs == [cs[0], cs[1]] + cs[2..];
        }
      } else {
        KeptMembers(t, cs[1..], x);
        assert cs == [cs[0]] + cs[1..];
      }
    }
  }

  /** When no two empty DIVs are adjacent, one pass leaves none. */
  lemma {:induction false} KeptNoEmptyDiv(t: Tree, cs: seq<NodeId>)
    requires forall i :: 0 <= i < |cs| - 1 ==> !(EmptyDiv(t, cs[i]) && EmptyDiv(t, cs[i + 1]))
    ensures forall x :: x in Kept(t, cs) ==> !EmptyDiv(t, x)
    decreases |cs|
  {
    if cs != [] {
      var d := if EmptyDiv(t, cs[0]) then 2 else 1;
      if d < |cs| || d == 1 {
        var tl := cs[d..];
        forall i | 0 <= i < |tl| - 1
          ensures !(EmptyDiv(t, tl[i]) && EmptyDiv(t, tl[i + 1]))
        {
          assert tl[i] == cs[i + d] && tl[i + 1] == cs[i + d + 1];
        }
        KeptNoEmptyDiv(t, tl);
      }
      if d == 2 && |cs| > 1 {
        assert !EmptyDiv(t, cs[1]);
      }
    }
  }

  /** Two adjacent empty DIVs: the second survives the pass. */
  lemma SecondEmptyDivSurvives(t: Tree, a: NodeId, b: NodeId)
    requires EmptyDiv(t, a) && EmptyDiv(t, b)
    ensures Kept(t, [a, b]) == [b]
  {
  }

  /** The children of `editor` that the pass removes. */
  function Pruned(t: Tree, cs: seq<NodeId>): set<NodeId>
  {
    set x | x in cs && x !in Kept(t, cs)
  }

  /** The tree after `cleanEditor(editor)`: the editor lists the kept children, the
      pruned ones are detached, and no other node changes. */
  function Cleaned(t: Tree, editor: NodeId): (r: Tree)
    requires Valid(t) && IsElement(t, editor)
    ensures Valid(r)
    ensures r.nodes.Keys == t.nodes.Keys
    ensures Children(r, editor) == Kept(t, Children(t, editor))
    ensures forall m :: m in t.nodes && m != editor ==> r.nodes[m] == t.nodes[m]
    ensures forall m :: m in Children(t, editor) ==> (m in r.parent <==> m in Kept(t, Children(t, editor)))
  {
    var cs := t.nodes[editor].children;
    CleanedValid(t, editor);
    Partial(t, editor, Kept(t, cs), Pruned(t, cs))
  }

  /** A single pass keeps distinct children distinct. */
  lemma {:induction false} KeptDistinct(t: Tree, cs: seq<NodeId>)
    requires forall a, b :: 0 <= a < b < |cs| ==> cs[a] != cs[b]
    ensures forall a, b :: 0 <= a < b < |Kept(t, cs)| ==> Kept(t, cs)[a] != Kept(t, cs)[b]
    decreases |cs|
  {
    if cs != [] {
      var d := if EmptyDiv(t, cs[0]) then 2 else 1;
      if d <= |cs| {
        var tl := cs[d..];
        assert forall a, b :: 0 <= a < b < |tl| ==> tl[a] == cs[a + d] && tl[b] == cs[b + d];
        KeptDistinct(t, tl);
        var head := cs[d - 1];
        forall x | x in Kept(t, tl)
          ensures x != head
        {
          KeptMembers(t, tl, x);
          var m :| 0 <= m < |tl| && tl[m] == x;
          assert x == cs[m + d];
        }
        var k := Kept(t, cs);
        assert k == [head] + Kept(t, tl);
        forall a, b | 0 <= a < b < |k|
          ensures k[a] != k[b]
        {
          assert k[b] == Kept(t, tl)[b - 1] && k[b] in Kept(t, tl);
          if a > 0 {
            assert k[a] == Kept(t, tl)[a - 1];
          } else {
            assert k[a] == head;
          }
        }
      }
    }
  }

  lemma CleanedValid(t: Tree, editor: NodeId)
    requires Valid(t) && IsElement(t, editor)
    ensures Valid(Partial(t, editor, Kept(t, Children(t, editor)), Pruned(t, Children(t, editor))))
  {
    var cs := Children(t, editor);
    var r := Partial(t, editor, Kept(t, cs), Pruned(t, cs));
    forall x | x in Kept(t, cs)
      ensures x in cs
    {
      KeptMembers(t, cs, x);
    }
    Distinct(t, editor);
    KeptDistinct(t, cs);
    assert RanksOk(r);
    assert ParentsOk(r) by {
      forall c | c in r.parent
        ensures c in r.nodes[r.parent[c]].children
      {
        if t.parent[c] == editor {
          assert c in cs;
        }
      }
    }
    assert ChildrenOk(r) by {
      forall p, i | p in r.nodes && r.nodes[p].Element? && 0 <= i < |r.nodes[p].children|
        ensures r.nodes[p].children[i] in r.parent && r.parent[r.nodes[p].children[i]] == p
      {
        var c := r.nodes[p].children[i];
        if p == editor {
          assert c in cs;
          var m :| 0 <= m < |cs| && cs[m] == c;
          ChildOf(t, editor, m);
        } else {
          assert c == t.nodes[p].children[i];
          assert c in t.parent && t.parent[c] == p;
        }
      }
    }
    assert DistinctOk(r) by {
      forall p, i, j | p in r.nodes && r.nodes[p].Element? && 0 <= i < j < |r.nodes[p].children|
        ensures ChildAt(r, p, i) != ChildAt(r, p, j)
      {
        if p != editor {
          Distinct(t, p);
        }
      }
    }
  }

  /** The tree part-way through the pass: the editor lists `ch` and the nodes in
      `removed` are detached. */
  function Partial(t: Tree, editor: NodeId, ch: seq<NodeId>, removed: set<NodeId>): Tree
    requires IsElement(t, editor)
  {
    t.(nodes := t.nodes[editor := t.nodes[editor].(children := ch)], parent := t.parent - removed)
  }

  /** A tree that agrees with `Partial` field by field is `Partial`. */
  lemma IsPartial(t: Tree, editor: NodeId, r: Tree, ch: seq<NodeId>, removed: set<NodeId>)
    requires IsElement(t, editor)
    requires r.nodes.Keys == t.nodes.Keys && r.rank == t.rank && r.next == t.next
    requires forall m :: m in t.nodes && m != editor ==> r.nodes[m] == t.nodes[m]
    requires r.nodes[editor] == t.nodes[editor].(children := ch)
    requires r.parent == t.parent - removed
    ensures r == Partial(t, editor, ch, removed)
  {
    assert r.nodes == Partial(t, editor, ch, removed).nodes;
  }

  /** After the first `j` children the pass has kept `done`. */
  ghost predicate Progress(t: Tree, cs: seq<NodeId>, j: nat, done: seq<NodeId>)
    requires j <= |cs|
  {
    done + Kept(t, cs[j..]) == Kept(t, cs)
  }

  /** The children among the first `j` that the pass has removed so far. */
  function Removed(cs: seq<NodeId>, j: nat, done: seq<NodeId>): set<NodeId>
    requires j <= |cs|
  {
    set x | x in cs[..j] && x !in done
  }

  /** The ghost bookkeeping of the pass after `i` steps: `done` are the children
      kept so far, the first `j` children have been dealt with, `over` says that the
      last step removed the last child, and `removed` are the children detached. */
  ghost predicate Pass(t: Tree, cs: seq<NodeId>, i: nat, j: nat, over: bool, done: seq<NodeId>, removed: set<NodeId>) {
    && j <= |cs| && (over ==> j == |cs|)
    && i == |done| + (if over then 1 else 0)
    && Progress(t, cs, j, done)
    && (forall x :: x in done ==> x in cs[..j])
    && removed == Removed(cs, j, done)
  }

  /** A removal that skips the following child. */
  lemma PruneSkip(t: Tree, cs: seq<NodeId>, i: nat, j: nat, done: seq<NodeId>, removed: set<NodeId>)
    requires Pass(t, cs, i, j, false, done, removed)
    requires j + 1 < |cs| && EmptyDiv(t, cs[j])
    requires forall a, b :: 0 <= a < b < |cs| ==> cs[a] != cs[b]
    ensures Pass(t, cs, i + 1, j + 2, false, done + [cs[j + 1]], removed + {cs[j]})
  {
    assert cs[j..][2..] == cs[j + 2..];
    assert Kept(t, cs[j..]) == [cs[j + 1]] + Kept(t, cs[j + 2..]);
    assert cs[..j + 2] == cs[..j] + [cs[j], cs[j + 1]];
    assert cs[j] !in cs[..j] && cs[j + 1] !in cs[..j];
  }

  /** A removal of the last child. */
  lemma PruneLast(t: Tree, cs: seq<NodeId>, i: nat, j: nat, done: seq<NodeId>, removed: set<NodeId>)
    requires Pass(t, cs, i, j, false, done, removed)
    requires j + 1 == |cs| && EmptyDiv(t, cs[j])
    requires forall a, b :: 0 <= a < b < |cs| ==> cs[a] != cs[b]
    ensures Pass(t, cs, i + 1, j + 1, true, done, removed + {cs[j]})
  {
    assert cs[..j + 1] == cs[..j] + [cs[j]];
    assert cs[j] !in cs[..j];
  }

  /** A child that is kept. */
  lemma PruneKeep(t: Tree, cs: seq<NodeId>, i: nat, j: nat, done: seq<NodeId>, removed: set<NodeId>)
    requires Pass(t, cs, i, j, false, done, removed)
    requires j < |cs| && !EmptyDiv(t, cs[j])
    requires forall a, b :: 0 <= a < b < |cs| ==> cs[a] != cs[b]
    ensures Pass(t, cs, i + 1, j + 1, false, done + [cs[j]], removed)
  {
    assert cs[..j + 1] == cs[..j] + [cs[j]];
    assert cs[j..][1..] == cs[j + 1..];
    assert Kept(t, cs[j..]) == [cs[j]] + Kept(t, cs[j + 1..]);
  }

  lemma SeqStep(a: seq<NodeId>, s: seq<NodeId>, j: nat)
    requires j < |s|
    ensures a + s[j..] == (a + [s[j]]) + s[j + 1..]
    ensures RemoveAt(a + s[j..], |a|) == a + s[j + 1..]
    ensures j + 1 < |s| ==> a + s[j + 1..] == (a + [s[j + 1]]) + s[j + 2..]
  {
    assert s[j..] == [s[j]] + s[j + 1..];
    if j + 1 < |s| {
      assert s[j + 1..] == [s[j + 1]] + s[j + 2..];
    }
  }

  lemma MinusStep(m: map<NodeId, NodeId>, removed: set<NodeId>, x: NodeId)
    ensures (m - removed) - {x} == m - (removed + {x})
  {
  }

  /** The tree part-way through the pass, with the bookkeeping of `Pass`: the editor
      lists the kept children followed by those not yet examined, the removed ones are
      detached, and nothing else differs from `t`. */
  ghost predicate Partway(t: Tree, editor: NodeId, cs: seq<NodeId>, r: Tree, i: nat, j: nat,
                          over: bool, done: seq<NodeId>, removed: set<NodeId>)
    requires IsElement(t, editor)
  {
    && Valid(r) && Pass(t, cs, i, j, over, done, removed) && j <= |cs|
    && Shape(t, editor, r, done + cs[j..], removed)
  }

  /** `r` differs from `t` only in that the editor lists `ch` and the nodes in
      `removed` are detached. */
  ghost predicate Shape(t: Tree, editor: NodeId, r: Tree, ch: seq<NodeId>, removed: set<NodeId>)
    requires IsElement(t, editor)
  {
    && r.nodes.Keys == t.nodes.Keys && r.rank == t.rank && r.next == t.next
    && (forall m :: m in t.nodes && m != editor ==> r.nodes[m] == t.nodes[m])
    && r.nodes[editor] == t.nodes[editor].(children := ch)
    && r.parent == t.parent - removed
  }

  lemma PartwayStart(t: Tree, editor: NodeId)
    requires Valid(t) && IsElement(t, editor)
    ensures Partway(t, editor, Children(t, editor), t, 0, 0, false, [], {})
  {
    var cs := Children(t, editor);
    assert [] + cs[0..] == cs && cs[..0] == [];
    assert t.nodes[editor].(children := cs) == t.nodes[editor];
    assert Removed(cs, 0, []) == {};
  }

  /** The child the loop examines next is the first one not yet dealt with. */
  lemma PartwayNext(t: Tree, editor: NodeId, cs: seq<NodeId>, r: Tree, i: nat, j: nat,
                    over: bool, done: seq<NodeId>, removed: set<NodeId>)
    requires Valid(t) && IsElement(t, editor) && cs == Children(t, editor)
    requires Partway(t, editor, cs, r, i, j, over, done, removed)
    requires i < |Children(r, editor)|
    ensures !over && i == |done| && j < |cs| && Children(r, editor)[i] == cs[j]
    ensures cs[j] in r.parent && r.parent[cs[j]] == editor && Index(r, cs[j]) == i
    ensures cs[j] in t.nodes && r.nodes[cs[j]] == t.nodes[cs[j]]
  {
    ChildOf(t, editor, j);
    ChildOf(r, editor, i);
  }

  lemma PartwaySkip(t: Tree, editor: NodeId, cs: seq<NodeId>, r: Tree, i: nat, j: nat,
                    done: seq<NodeId>, removed: set<NodeId>)
    requires Valid(t) && IsElement(t, editor) && cs == Children(t, editor)
    requires Partway(t, editor, cs, r, i, j, false, done, removed)
    requires i == |done| && j + 1 < |cs| && EmptyDiv(t, cs[j])
    requires cs[j] in r.parent && r.parent[cs[j]] == editor && Index(r, cs[j]) == i
    ensures Partway(t, editor, cs, Detach(r, cs[j]), i + 1, j + 2, false, done + [cs[j + 1]], removed + {cs[j]})
  {
    Distinct(t, editor);
    PruneSkip(t, cs, i, j, done, removed);
    SeqStep(done, cs, j);
    DetachStep(t, editor, cs, r, i, j, done, removed, (done + [cs[j + 1]]) + cs[j + 2..]);
  }

  lemma PartwayLast(t: Tree, editor: NodeId, cs: seq<NodeId>, r: Tree, i: nat, j: nat,
                    done: seq<NodeId>, removed: set<NodeId>)
    requires Valid(t) && IsElement(t, editor) && cs == Children(t, editor)
    requires Partway(t, editor, cs, r, i, j, false, done, removed)
    requires i == |done| && j + 1 == |cs| && EmptyDiv(t, cs[j])
    requires cs[j] in r.parent && r.parent[cs[j]] == editor && Index(r, cs[j]) == i
    ensures Partway(t, editor, cs, Detach(r, cs[j]), i + 1, j + 1, true, done, removed + {cs[j]})
  {
    Distinct(t, editor);
    PruneLast(t, cs, i, j, done, removed);
    DetachStep(t, editor, cs, r, i, j, done, removed, done + cs[j + 1..]);
  }

  /** Detaching the examined child leaves the editor listing the kept children and
      those after the examined one. */
  lemma DetachStep(t: Tree, editor: NodeId, cs: seq<NodeId>, r: Tree, i: nat, j: nat,
                   done: seq<NodeId>, removed: set<NodeId>, ch: seq<NodeId>)
    requires Valid(t) && IsElement(t, editor) && cs == Children(t, editor)
    requires Partway(t, editor, cs, r, i, j, false, done, removed)
    requires i == |done| && j < |cs| && ch == done + cs[j + 1..]
    requires cs[j] in r.parent && r.parent[cs[j]] == editor && Index(r, cs[j]) == i
    ensures Valid(Detach(r, cs[j]))
    ensures Shape(t, editor, Detach(r, cs[j]), ch, removed + {cs[j]})
  {
    SeqStep(done, cs, j);
    MinusStep(t.parent, removed, cs[j]);
  }

  lemma PartwayKeep(t: Tree, editor: NodeId, cs: seq<NodeId>, r: Tree, i: nat, j: nat,
                    done: seq<NodeId>, removed: set<NodeId>)
    requires Valid(t) && IsElement(t, editor) && cs == Children(t, editor)
    requires Partway(t, editor, cs, r, i, j, false, done, removed)
    requires i == |done| && j < |cs| && !EmptyDiv(t, cs[j])
    ensures Partway(t, editor, cs, r, i + 1, j + 1, false, done + [cs[j]], removed)
  {
    Distinct(t, editor);
    PruneKeep(t, cs, i, j, done, removed);
    SeqStep(done, cs, j);
  }

  lemma PartwayEnd(t: Tree, editor: NodeId, cs: seq<NodeId>, r: Tree, i: nat, j: nat,
                   over: bool, done: seq<NodeId>, removed: set<NodeId>)
    requires Valid(t) && IsElement(t, editor) && cs == Children(t, editor)
    requires Partway(t, editor, cs, r, i, j, over, done, removed)
    requires i >= |Children(r, editor)|
    ensures r == Cleaned(t, editor)
  {
    assert j == |cs| && done + Kept(t, cs[j..]) == Kept(t, cs);
    assert cs[j..] == [];
    assert Kept(t, cs[j..]) == [];
    assert done + cs[j..] == Kept(t, cs);
    assert cs[..j] == cs;
    assert removed == Pruned(t, cs);
    IsPartial(t, editor, r, done + cs[j..], removed);
  }

  /** `cleanEditor(editor)`: one pass over the editor's children with an index that
      advances after every step, removing each empty DIV it examines. */
  method CleanEditor(t: Tree, editor: NodeId) returns (r: Tree)
    requires Valid(t) && IsElement(t, editor)
    ensures Valid(r) && r == Cleaned(t, editor)
  {
    r := t;
    ghost var cs := Children(t, editor);
    ghost var done: seq<NodeId> := [];
    ghost var j := 0;
    ghost var over := false;
    ghost var removed: set<NodeId> := {};
    PartwayStart(t, editor);
    var i := 0;
    while i < |Children(r, editor)|
      invariant Partway(t, editor, cs, r, i, j, over, done, removed)
      decreases |cs| - j + (if over then 0 else 1)
    {
      PartwayNext(t, editor, cs, r, i, j, over, done, removed);
      var node := Children(r, editor)[i];
      if node in r.nodes && r.nodes[node].Element? && r.nodes[node].nodeName == "DIV" && |r.nodes[node].children| == 0 {
        if j + 1 < |cs| {
          PartwaySkip(t, editor, cs, r, i, j, done, removed);
        } else {
          PartwayLast(t, editor, cs, r, i, j, done, removed);
        }
        r := Detach(r, node);
        if j + 1 < |cs| {
          done := done + [cs[j + 1]];
          j := j + 2;
        } else {
          j := j + 1;
          over := true;
        }
        removed := removed + {node};
      } else {
        PartwayKeep(t, editor, cs, r, i, j, done, removed);
        done := done + [cs[j]];
        j := j + 1;
      }
      i := i + 1;
    }
    PartwayEnd(t, editor, cs, r, i, j, over, done, removed);
  }

  // ---------------------------------------------------------------------------
  // deletePreviousNode (rte.js:427-503)

  /** The part of the host selection the handler reads. */
  datatype Selection = Selection(isCollapsed: bool, focusNode: Option<NodeId>, focusOffset: nat)

  /** `node.childNodes[k]`, or `node` itself where that index is past the end. */
  function ChildOrSelf(t: Tree, node: NodeId, k: int): (r: NodeId)
    requires Valid(t) && node in t.nodes
    ensures r in t.nodes
    ensures 0 <= k < |Children(t, node)| ==> r in t.parent && t.parent[r] == node
  {
    var cs := Children(t, node);
    if 0 <= k < |cs| then ChildOf(t, node, k); cs[k] else node
  }

  /** The node the handler starts its descent from (rte.js:445-469), or `None` where
      it returns `false` first: the start of the editor was reached, or the candidate
      is the editor itself. */
  function Target(t: Tree, editor: NodeId, node: NodeId, offset: nat): (r: Option<NodeId>)
    requires Valid(t) && node in t.nodes
    ensures r.Some? ==> r.value in t.nodes && r.value != editor
  {
    var x :=
      if offset > 0 then Some(ChildOrSelf(t, node, offset - 1))
      else match PreviousSibling(t, node)
        case Some(p) => Some(ChildOrSelf(t, p, NodeLen(t, p)))
        case None =>
          match PreviousNode(t, node, editor)
          case None => None
          case Some(q) =>
            if q == editor then None
            else Some(ChildOrSelf(t, q, if |Children(t, q)| > 0 then |Children(t, q)| - 1 else 0));
    if x.Some? && x.value == editor then None else x
  }

  /** With the caret at the start of a node that has a previous sibling, the
      candidate is that sibling itself: the offset `nodeLen(prev)` never names one of
      its children. */
  lemma TargetIsPreviousSibling(t: Tree, editor: NodeId, node: NodeId)
    requires Valid(t) && node in t.nodes && PreviousSibling(t, node).Some?
    ensures var p := PreviousSibling(t, node).value;
      Target(t, editor, node, 0) == if p == editor then None else Some(p)
  {
  }

  /** When no inclusive ancestor below the editor has a previous sibling, the
      climb yields the editor. */
  lemma {:induction false} ClimbReachesEditor(t: Tree, node: NodeId, editor: NodeId, e: nat)
    requires Valid(t) && node in t.nodes
    requires 1 <= e < |Ancestors(t, node)| && Ancestors(t, node)[e] == editor
    requires forall i :: 0 <= i < e ==> PreviousSibling(t, Ancestors(t, node)[i]).None?
    requires forall i :: 1 <= i < e ==> Ancestors(t, node)[i] != editor
    ensures PreviousNode(t, node, editor) == Some(editor)
  {
    var a := Ancestors(t, node);
    ClimbCases(t, a, editor, 0);
    ClimbStops(t, a, editor, 0);
    assert PreviousNode(t, node, editor).Some? by {
      assert !((forall i :: 0 < i < |a| ==> a[i] != editor));
    }
    var k :| StopsAt(t, a, editor, 0, k);
    assert k == e;
  }

  /** With the caret at the start of the first node of the editor, the handler
      stops before the descent. */
  lemma TargetAtStart(t: Tree, editor: NodeId, node: NodeId, e: nat)
    requires Valid(t) && node in t.nodes
    requires 1 <= e < |Ancestors(t, node)| && Ancestors(t, node)[e] == editor
    requires forall i :: 0 <= i < e ==> PreviousSibling(t, Ancestors(t, node)[i]).None?
    requires forall i :: 1 <= i < e ==> Ancestors(t, node)[i] != editor
    ensures Target(t, editor, node, 0) == None
  {
    ClimbReachesEditor(t, node, editor, e);
  }

  /** What TreeWalker's filter rejects, removing it from the tree as it does so. */
  predicate Rejected(t: Tree, c: NodeId) {
    EmptyDiv(t, c) || (IsText(t, c) && |t.nodes[c].data| == 0)
  }

  /** The descent `while (walker.lastChild()) target = current`: follow last children
      while the filter accepts them. A rejected last child is removed, and as it then
      has neither siblings nor a parent the walker reports no child and the descent
      ends where it is. The result is the new tree and the final target. */
  function Descend(t: Tree, target: NodeId): (r: (Tree, NodeId))
    requires Valid(t) && target in t.nodes
    ensures Valid(r.0) && r.1 in t.nodes && r.0.nodes.Keys == t.nodes.Keys
    decreases t.rank[target]
  {
    var cs := Children(t, target);
    if cs == [] then (t, target)
    else
      var c := cs[|cs| - 1];
      ChildOf(t, target, |cs| - 1);
      if Rejected(t, c) then (Detach(t, c), target)
      else Descend(t, c)
  }

  /** The descent ends at a descendant of where it started, and either that node
      has no children and nothing changed, or its last child was rejected and is the
      one node removed. */
  lemma {:induction false} DescendEnds(t: Tree, target: NodeId)
    requires Valid(t) && target in t.nodes
    ensures var (d, f) := Descend(t, target);
      && target in Ancestors(t, f)
      && var last := Children(t, f);
         || (d == t && last == [])
         || (last != [] && last[|last| - 1] in t.parent && Rejected(t, last[|last| - 1]) && d == Detach(t, last[|last| - 1]))
    decreases t.rank[target]
  {
    var cs := Children(t, target);
    if cs != [] {
      var c := cs[|cs| - 1];
      ChildOf(t, target, |cs| - 1);
      if !Rejected(t, c) {
        DescendEnds(t, c);
        AncestorsTrans(t, Descend(t, c).1, c, target);
      }
    }
  }

  /** The descent as the loop of rte.js:487-489. */
  method Descent(t: Tree, target: NodeId) returns (t': Tree, f: NodeId)
    requires Valid(t) && target in t.nodes
    ensures (t', f) == Descend(t, target)
  {
    f := target;
    while true
      invariant f in t.nodes && Descend(t, f) == Descend(t, target)
      decreases t.rank[f]
    {
      var cs := Children(t, f);
      if cs == [] {
        return t, f;
      }
      var c := cs[|cs| - 1];
      ChildOf(t, f, |cs| - 1);
      if Rejected(t, c) {
        // the filter removes `c`; `lastChild()` then finds nothing
        return Detach(t, c), f;
      }
      f := c;
    }
  }

  /** Whether the handler reaches the descent: a collapsed selection whose focus is
      not inside a text node past its start. */
  predicate PastEarlyReturns(t: Tree, sel: Selection) {
    sel.isCollapsed && sel.focusNode.Some? && !(IsText(t, sel.focusNode.value) && sel.focusOffset > 0)
  }

  /** The steps of rte.js:445-469 that choose the node the descent starts from. */
  method PickTarget(t: Tree, editor: NodeId, node: NodeId, offset: nat) returns (x: Option<NodeId>)
    requires Valid(t) && node in t.nodes
    ensures x == Target(t, editor, node, offset)
  {
    var n := node;
    var k: int;
    if offset > 0 {
      k := offset - 1;
    } else {
      var prev := PreviousSibling(t, n);
      if prev.None? {
        x := PickAfterClimb(t, editor, node);
        return;
      }
      n := prev.value;
      k := NodeLen(t, n);
    }
    var target := ChildOrSelf(t, n, k);
    if target == editor {
      return None;
    }
    return Some(target);
  }

  /** The steps of rte.js:456-466 for a node with no previous sibling: climb with
      `getPreviousNode` and take the last child of what it finds. */
  method PickAfterClimb(t: Tree, editor: NodeId, node: NodeId) returns (x: Option<NodeId>)
    requires Valid(t) && node in t.nodes && PreviousSibling(t, node).None?
    ensures x == Target(t, editor, node, 0)
  {
    var q := GetPreviousNode(t, node, editor);
    if q.None? || q.value == editor {
      return None;
    }
    var n := q.value;
    var k := 0;
    if |Children(t, n)| > 0 {
      k := |Children(t, n)| - 1;
    }
    var target := ChildOrSelf(t, n, k);
    if target == editor {
      return None;
    }
    return Some(target);
  }

  /** `deletePreviousNode(rte)`. The result is the handler's return value (`true`
      lets the host perform its own deletion), or `None` where the final
      `target.parentNode.removeChild(target)` throws because the target is detached. */
  method DeletePreviousNode(t: Tree, editor: NodeId, sel: Selection) returns (r: Option<bool>, t': Tree)
    requires Valid(t) && IsElement(t, editor)
    requires sel.focusNode.Some? ==> sel.focusNode.value in t.nodes
    ensures Valid(t')
    ensures !sel.isCollapsed ==> r == Some(true) && t' == t
    ensures sel.isCollapsed && sel.focusNode.None? ==> r == Some(false) && t' == t
    ensures sel.isCollapsed && sel.focusNode.Some? && IsText(t, sel.focusNode.value) && sel.focusOffset > 0 ==>
              r == Some(true) && t' == t
    ensures PastEarlyReturns(t, sel) ==>
              var tc := Cleaned(t, editor);
              var x := Target(tc, editor, sel.focusNode.value, sel.focusOffset);
              && (x.None? ==> r == Some(false) && t' == tc)
              && (x.Some? ==>
                    var (td, f) := Descend(tc, x.value);
                    && (r == Some(true) <==> TextContent(td, f) != "")
                    && (r == Some(true) ==> t' == td)
                    && (r == Some(false) ==> f in td.parent && t' == Detach(td, f))
                    && (r.None? ==> f !in td.parent && t' == td))
  {
    if !sel.isCollapsed {
      return Some(true), t;
    }
    if sel.focusNode.None? {
      return Some(false), t;
    }
    var node := sel.focusNode.value;
    var offset := sel.focusOffset;
    if IsText(t, node) && offset > 0 {
      return Some(true), t;
    }
    t' := CleanEditor(t, editor);
    var x := PickTarget(t', editor, node, offset);
    if x.None? {
      return Some(false), t';
    }
    var target;
    t', target := Descent(t', x.value);
    r, t' := RemoveIfEmpty(t', target);
  }

  /** The end of the handler (rte.js:490-502): a target with text is left to the
      host, an empty one is removed. */
  method RemoveIfEmpty(t: Tree, target: NodeId) returns (r: Option<bool>, t': Tree)
    requires Valid(t) && target in t.nodes
    ensures Valid(t')
    ensures r == Some(true) <==> TextContent(t, target) != ""
    ensures r == Some(true) ==> t' == t
    ensures r == Some(false) ==> target in t.parent && t' == Detach(t, target)
    ensures r.None? ==> target !in t.parent && t' == t
  {
    if IsText(t, target) && |t.nodes[target].data| > 0 {
      return Some(true), t;
    }
    if |TextContent(t, target)| > 0 {
      return Some(true), t;
    }
    if target !in t.parent {
      return None, t;
    }
    return Some(false), Detach(t, target);
  }
}
