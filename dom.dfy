/** The host document tree as an arena: every node has an id, element records list
    their children by id, and a parent map gives each attached node its parent.
    Node identity is id equality, as the editor compares nodes with `==`. */
module Dom {
  import opened Wrappers

  type NodeId = nat

  datatype Node =
    | Text(data: string)
    | Element(nodeName: string, classes: set<string>, fontWeight: string,
              attributes: map<string, string>, children: seq<NodeId>)

  /** `rank` strictly decreases from a parent to its children; it witnesses that the
      parent chains are finite and is the termination measure of every walk over the
      tree. `next` is the id the next created node receives. */
  datatype Tree = Tree(nodes: map<NodeId, Node>, parent: map<NodeId, NodeId>,
                       rank: map<NodeId, nat>, next: NodeId)

  ghost predicate Valid(t: Tree) {
    RanksOk(t) && ParentsOk(t) && ChildrenOk(t) && DistinctOk(t)
  }

  ghost predicate RanksOk(t: Tree) {
    && t.rank.Keys == t.nodes.Keys
    && (forall n :: n in t.nodes ==> n < t.next)
  }

  /** Every attached node is listed by its parent, an element ranked above it. */
  ghost predicate ParentsOk(t: Tree)
    requires RanksOk(t)
  {
    forall c :: c in t.parent ==>
      && c in t.nodes && t.parent[c] in t.nodes
      && t.nodes[t.parent[c]].Element?
      && c in t.nodes[t.parent[c]].children
      && t.rank[c] < t.rank[t.parent[c]]
  }

  /** Every listed child has the listing element as its parent. */
  ghost predicate ChildrenOk(t: Tree) {
    forall p, i :: p in t.nodes && t.nodes[p].Element? && 0 <= i < |t.nodes[p].children| ==>
      t.nodes[p].children[i] in t.parent && t.parent[t.nodes[p].children[i]] == p
  }

  /** No element lists a child twice. It is stated on `ChildAt`, so a proof draws on
      it only where it names the children it compares (see `Distinct`). */
  ghost predicate DistinctOk(t: Tree) {
    forall p, i, j {:trigger ChildAt(t, p, i), ChildAt(t, p, j)} ::
      p in t.nodes && t.nodes[p].Element? && 0 <= i < j < |t.nodes[p].children| ==>
      ChildAt(t, p, i) != ChildAt(t, p, j)
  }

  /** The `i`-th child of the element `p`. */
  function ChildAt(t: Tree, p: NodeId, i: nat): NodeId
    requires p in t.nodes && t.nodes[p].Element? && i < |t.nodes[p].children|
  {
    t.nodes[p].children[i]
  }

  /** The children of an element are pairwise distinct. */
  lemma Distinct(t: Tree, p: NodeId)
    requires Valid(t)
    ensures forall i, j :: 0 <= i < j < |Children(t, p)| ==> Children(t, p)[i] != Children(t, p)[j]
    ensures p in t.nodes && t.nodes[p].Element? ==> Children(t, p) == t.nodes[p].children
  {
    forall i, j | 0 <= i < j < |Children(t, p)|
      ensures Children(t, p)[i] != Children(t, p)[j]
    {
      assert ChildAt(t, p, i) != ChildAt(t, p, j);
    }
  }

  /** `childNodes`: a text node has none. */
  function Children(t: Tree, n: NodeId): seq<NodeId> {
    if n in t.nodes && t.nodes[n].Element? then t.nodes[n].children else []
  }

  predicate IsText(t: Tree, n: NodeId) {
    n in t.nodes && t.nodes[n].Text?
  }

  predicate IsElement(t: Tree, n: NodeId) {
    n in t.nodes && t.nodes[n].Element?
  }

  /** `parentNode`. */
  function Parent(t: Tree, n: NodeId): Option<NodeId> {
    if n in t.parent then Some(t.parent[n]) else None
  }

  function IndexOf(s: seq<NodeId>, x: NodeId): (i: nat)
    requires x in s
    ensures i < |s| && s[i] == x
  {
    if s[0] == x then 0 else 1 + IndexOf(s[1..], x)
  }

  /** The index of an attached node among its parent's children. */
  function Index(t: Tree, c: NodeId): (i: nat)
    requires Valid(t) && c in t.parent
    ensures i < |Children(t, t.parent[c])| && Children(t, t.parent[c])[i] == c
  {
    IndexOf(t.nodes[t.parent[c]].children, c)
  }

  /** A child is listed only at its index. */
  lemma IndexUnique(t: Tree, c: NodeId, k: nat)
    requires Valid(t) && c in t.parent
    requires k < |Children(t, t.parent[c])| && Children(t, t.parent[c])[k] == c
    ensures Index(t, c) == k
  {
    Distinct(t, t.parent[c]);
  }

  lemma ChildOf(t: Tree, p: NodeId, k: nat)
    requires Valid(t) && k < |Children(t, p)|
    ensures Children(t, p)[k] in t.parent && t.parent[Children(t, p)[k]] == p
    ensures Children(t, p)[k] in t.nodes && t.rank[Children(t, p)[k]] < t.rank[p]
    ensures Index(t, Children(t, p)[k]) == k
  {
    IndexUnique(t, Children(t, p)[k], k);
  }

  /** `previousSibling`. */
  function PreviousSibling(t: Tree, n: NodeId): (r: Option<NodeId>)
    requires Valid(t)
    ensures r.Some? ==> n in t.parent && 0 < Index(t, n)
                        && r.value == Children(t, t.parent[n])[Index(t, n) - 1]
    ensures r.None? ==> n !in t.parent || Index(t, n) == 0
    ensures r.Some? ==> r.value in t.nodes
  {
    if n in t.parent && Index(t, n) > 0 then
      ChildOf(t, t.parent[n], Index(t, n) - 1);
      Some(Children(t, t.parent[n])[Index(t, n) - 1])
    else None
  }

  /** `nodeLen` at rte.js:594-598: the length of a text node's data, otherwise the
      number of children. */
  function NodeLen(t: Tree, n: NodeId): (len: nat)
    requires n in t.nodes
    ensures IsText(t, n) ==> len == |t.nodes[n].data|
    ensures !IsText(t, n) ==> len == |Children(t, n)|
  {
    match t.nodes[n]
    case Text(d) => |d|
    case Element(_, _, _, _, cs) => |cs|
  }

  /** The nodes ranked above `n`; it shrinks strictly on every step up a parent chain. */
  function Above(t: Tree, n: NodeId): set<NodeId>
    requires n in t.rank
  {
    set m | m in t.rank && t.rank[m] > t.rank[n]
  }

  lemma AboveShrinks(t: Tree, c: NodeId)
    requires Valid(t) && c in t.parent
    ensures Above(t, t.parent[c]) < Above(t, c)
  {
    var p := t.parent[c];
    assert p in Above(t, c) && p !in Above(t, p);
  }

  /** The inclusive ancestors of `n`, from `n` itself up to the root of its tree. */
  function Ancestors(t: Tree, n: NodeId): (a: seq<NodeId>)
    requires Valid(t) && n in t.nodes
    ensures |a| >= 1 && a[0] == n && a[|a| - 1] !in t.parent
    ensures forall i :: 0 <= i < |a| ==> a[i] in t.nodes
    ensures forall i :: 0 <= i < |a| - 1 ==> a[i] in t.parent
    ensures forall i {:trigger t.parent[a[i]]} :: 0 <= i < |a| - 1 ==> t.parent[a[i]] == a[i + 1]
    decreases Above(t, n)
  {
    if n in t.parent then
      AboveShrinks(t, n);
      [n] + Ancestors(t, t.parent[n])
    else [n]
  }

  /** Being an inclusive ancestor is transitive. */
  lemma {:induction false} AncestorsTrans(t: Tree, f: NodeId, p: NodeId, x: NodeId)
    requires Valid(t) && f in t.nodes && p in t.nodes
    requires p in Ancestors(t, f) && x in Ancestors(t, p)
    ensures x in Ancestors(t, f)
    decreases Above(t, f)
  {
    if f != p {
      assert f in t.parent;
      AboveShrinks(t, f);
      AncestorsTrans(t, t.parent[f], p, x);
    }
  }

  /** A later entry of `n`'s ancestor list is an inclusive ancestor of an earlier one. */
  lemma {:induction false} AncestorsLater(t: Tree, n: NodeId, i: nat, k: nat)
    requires Valid(t) && n in t.nodes && i <= k < |Ancestors(t, n)|
    ensures Ancestors(t, n)[k] in Ancestors(t, Ancestors(t, n)[i])
    decreases i
  {
    if i > 0 {
      var p := t.parent[n];
      var a, b := Ancestors(t, n), Ancestors(t, p);
      assert a == [n] + b;
      AncestorsLater(t, p, i - 1, k - 1);
      assert a[i] == b[i - 1] && a[k] == b[k - 1];
    }
  }

  /** The root of `n`'s tree is an inclusive ancestor of `n`. */
  lemma {:induction false} RootInAncestors(t: Tree, n: NodeId)
    requires Valid(t) && n in t.nodes
    ensures Root(t, n) in Ancestors(t, n)
    decreases Above(t, n)
  {
    if n in t.parent {
      AboveShrinks(t, n);
      RootInAncestors(t, t.parent[n]);
    }
  }

  /** Every inclusive ancestor of `n` is in `n`'s tree. */
  lemma {:induction false} RootOfAncestor(t: Tree, n: NodeId, x: NodeId)
    requires Valid(t) && n in t.nodes && x in Ancestors(t, n)
    ensures x in t.nodes && Root(t, x) == Root(t, n)
    decreases Above(t, n)
  {
    if x != n {
      AboveShrinks(t, n);
      RootOfAncestor(t, t.parent[n], x);
    }
  }

  /** The inclusive ancestors of a node that is not text are elements. */
  lemma AncestorIsElement(t: Tree, n: NodeId, x: NodeId)
    requires Valid(t) && n in t.nodes && !IsText(t, n) && x in Ancestors(t, n)
    ensures IsElement(t, x)
  {
    var a := Ancestors(t, n);
    var i :| 0 <= i < |a| && a[i] == x;
    if i > 0 {
      assert a[i - 1] in t.parent && t.parent[a[i - 1]] == x;
    }
  }

  /** An attached node is in its parent's tree, one index below it. */
  lemma RootPathStep(t: Tree, n: NodeId)
    requires Valid(t) && n in t.parent
    ensures t.parent[n] in t.nodes
    ensures Root(t, n) == Root(t, t.parent[n])
    ensures Path(t, n) == Path(t, t.parent[n]) + [Index(t, n)]
  {
  }

  /** The root of the tree `n` belongs to. */
  function Root(t: Tree, n: NodeId): NodeId
    requires Valid(t) && n in t.nodes
    decreases Above(t, n)
  {
    if n in t.parent then
      AboveShrinks(t, n);
      Root(t, t.parent[n])
    else n
  }

  /** The child indices leading from the root of `n`'s tree down to `n`. */
  function Path(t: Tree, n: NodeId): (p: seq<nat>)
    requires Valid(t) && n in t.nodes
    ensures |p| == |Ancestors(t, n)| - 1
    decreases Above(t, n)
  {
    if n in t.parent then
      AboveShrinks(t, n);
      Path(t, t.parent[n]) + [Index(t, n)]
    else []
  }

  /** `textContent`: the data of the text nodes of the subtree, in tree order. */
  function TextContent(t: Tree, n: NodeId): string
    requires Valid(t) && n in t.nodes
    decreases t.rank[n], 1
  {
    match t.nodes[n]
    case Text(d) => d
    case Element(_, _, _, _, cs) => ChildrenText(t, n, |cs|)
  }

  /** The text content of the first `k` children of `n`. */
  function ChildrenText(t: Tree, n: NodeId, k: nat): string
    requires Valid(t) && n in t.nodes && k <= |Children(t, n)|
    decreases t.rank[n], 0, k
  {
    if k == 0 then ""
    else
      ChildOf(t, n, k - 1);
      ChildrenText(t, n, k - 1) + TextContent(t, Children(t, n)[k - 1])
  }
}
