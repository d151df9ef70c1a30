/** Boundary points and ranges (sections 5.2 and 5.5 of the DOM Living Standard).
    A boundary point (node, offset) is placed in document order by its key: the root
    of its tree, the child indices from that root down to the node, then the offset.
    Comparing keys lexicographically, a proper prefix first, gives the standard's
    order: a point in an ancestor at offset o comes after the points inside its
    children with index below o, and before the rest. */
module Boundary {
  import opened Wrappers
  import opened Dom

  datatype BoundaryPoint = BP(node: NodeId, offset: nat)
  datatype Range = Range(start: BoundaryPoint, end: BoundaryPoint)

  predicate InTree(t: Tree, p: BoundaryPoint) {
    p.node in t.nodes
  }

  function Key(t: Tree, p: BoundaryPoint): seq<nat>
    requires Valid(t) && InTree(t, p)
  {
    [Root(t, p.node)] + Path(t, p.node) + [p.offset]
  }

  /** -1, 0 or 1 as `a` sorts before, equal to or after `b`. */
  function LexCmp(a: seq<nat>, b: seq<nat>): (c: int)
    ensures -1 <= c <= 1
  {
    if |a| == 0 then (if |b| == 0 then 0 else -1)
    else if |b| == 0 then 1
    else if a[0] < b[0] then -1
    else if a[0] > b[0] then 1
    else LexCmp(a[1..], b[1..])
  }

  lemma {:induction false} LexCmpZero(a: seq<nat>, b: seq<nat>)
    ensures LexCmp(a, b) == 0 <==> a == b
  {
    if a != [] && b != [] && a[0] == b[0] {
      LexCmpZero(a[1..], b[1..]);
      assert a == [a[0]] + a[1..] && b == [b[0]] + b[1..];
    }
  }

  lemma {:induction false} LexCmpFlip(a: seq<nat>, b: seq<nat>)
    ensures LexCmp(a, b) == -LexCmp(b, a)
  {
    if a != [] && b != [] && a[0] == b[0] {
      LexCmpFlip(a[1..], b[1..]);
    }
  }

  lemma {:induction false} LexCmpTrans(a: seq<nat>, b: seq<nat>, c: seq<nat>)
    ensures LexCmp(a, b) <= 0 && LexCmp(b, c) <= 0 ==> LexCmp(a, c) <= 0
    ensures LexCmp(a, b) < 0 && LexCmp(b, c) <= 0 ==> LexCmp(a, c) < 0
    ensures LexCmp(a, b) <= 0 && LexCmp(b, c) < 0 ==> LexCmp(a, c) < 0
  {
    if a != [] && b != [] && c != [] && a[0] == b[0] == c[0] {
      LexCmpTrans(a[1..], b[1..], c[1..]);
    }
  }

  /** The order of two boundary points of `t`: -1 before, 0 equal, 1 after. */
  function Compare(t: Tree, a: BoundaryPoint, b: BoundaryPoint): int
    requires Valid(t) && InTree(t, a) && InTree(t, b)
  {
    LexCmp(Key(t, a), Key(t, b))
  }

  const START_TO_START: nat := 0
  const START_TO_END: nat := 1
  const END_TO_END: nat := 2
  const END_TO_START: nat := 3

  /** `this.compareBoundaryPoints(how, source)` (section 5.5 of the DOM Living
      Standard): START_TO_END compares this range's end with the source's start,
      END_TO_START this range's start with the source's end. */
  function CompareBoundaryPoints(t: Tree, how: nat, self: Range, source: Range): (c: int)
    requires Valid(t) && InTree(t, self.start) && InTree(t, self.end)
    requires InTree(t, source.start) && InTree(t, source.end)
    requires how <= END_TO_START
    ensures -1 <= c <= 1
    ensures how == START_TO_START ==> c == Compare(t, self.start, source.start)
    ensures how == START_TO_END ==> c == Compare(t, self.end, source.start)
    ensures how == END_TO_END ==> c == Compare(t, self.end, source.end)
    ensures how == END_TO_START ==> c == Compare(t, self.start, source.end)
  {
    var (mine, other) :=
      if how == START_TO_START then (self.start, source.start)
      else if how == START_TO_END then (self.end, source.start)
      else if how == END_TO_END then (self.end, source.end)
      else (self.start, source.end);
    Compare(t, mine, other)
  }

  /** `new Range(); r.selectNode(n)`: the range from just before to just after `n`
      in its parent. */
  function NodeRange(t: Tree, n: NodeId): (r: Range)
    requires Valid(t) && n in t.parent
    ensures r.start.node == r.end.node == t.parent[n]
    ensures r.start.offset == Index(t, n) && r.end.offset == r.start.offset + 1
  {
    Range(BP(t.parent[n], Index(t, n)), BP(t.parent[n], Index(t, n) + 1))
  }

  lemma {:induction false} NodeRangeOrdered(t: Tree, n: NodeId)
    requires Valid(t) && n in t.parent
    ensures Compare(t, NodeRange(t, n).start, NodeRange(t, n).end) < 0
  {
    var r := NodeRange(t, n);
    var pre := [Root(t, t.parent[n])] + Path(t, t.parent[n]);
    assert Key(t, r.start) == pre + [r.start.offset];
    assert Key(t, r.end) == pre + [r.end.offset];
    LexCmpCommonPrefix(pre, [r.start.offset], [r.end.offset]);
  }

  lemma {:induction false} LexCmpCommonPrefix(p: seq<nat>, a: seq<nat>, b: seq<nat>)
    ensures LexCmp(p + a, p + b) == LexCmp(a, b)
  {
    if p != [] {
      assert (p + a)[0] == p[0] == (p + b)[0];
      assert (p + a)[1..] == p[1..] + a && (p + b)[1..] == p[1..] + b;
      LexCmpCommonPrefix(p[1..], a, b);
    } else {
      assert p + a == a && p + b == b;
    }
  }

  /** A range whose start does not come after its end, as every live range is. */
  predicate WellOrdered(t: Tree, r: Range)
    requires Valid(t) && InTree(t, r.start) && InTree(t, r.end)
  {
    Compare(t, r.start, r.end) <= 0
  }

  /** The index of the first entry of `a` that is also in `b`, or `|a|`. */
  function FirstCommon(a: seq<NodeId>, b: seq<NodeId>): (i: nat)
    ensures i <= |a| && (i < |a| ==> a[i] in b)
    ensures forall k :: 0 <= k < i ==> a[k] !in b
  {
    if a == [] || a[0] in b then 0 else 1 + FirstCommon(a[1..], b)
  }

  /** `range.commonAncestorContainer` for a range from a point in `a` to a point in
      `b`: the nearest inclusive ancestor of `a` that is an inclusive ancestor of `b`,
      which exists exactly when the two are in one tree. */
  function CommonAncestor(t: Tree, a: NodeId, b: NodeId): (r: Option<NodeId>)
    requires Valid(t) && a in t.nodes && b in t.nodes
    ensures r.Some? ==> r.value in Ancestors(t, a) && r.value in Ancestors(t, b)
    ensures r.Some? ==> forall x :: x in Ancestors(t, a) && x in Ancestors(t, b) ==> x in Ancestors(t, r.value)
    ensures r.None? <==> Root(t, a) != Root(t, b)
  {
    var aa, bb := Ancestors(t, a), Ancestors(t, b);
    var i := FirstCommon(aa, bb);
    if i == |aa| then
      RootInAncestors(t, a);
      RootInAncestors(t, b);
      None
    else
      RootOfAncestor(t, a, aa[i]);
      RootOfAncestor(t, b, aa[i]);
      Nearest(t, a, bb, i);
      Some(aa[i])
  }

  lemma Nearest(t: Tree, a: NodeId, bb: seq<NodeId>, i: nat)
    requires Valid(t) && a in t.nodes && i == FirstCommon(Ancestors(t, a), bb) < |Ancestors(t, a)|
    ensures forall x :: x in Ancestors(t, a) && x in bb ==> x in Ancestors(t, Ancestors(t, a)[i])
  {
    var aa := Ancestors(t, a);
    forall x | x in aa && x in bb
      ensures x in Ancestors(t, aa[i])
    {
      var k :| 0 <= k < |aa| && aa[k] == x;
      AncestorsLater(t, a, i, k);
    }
  }
}
