/** `sanitize` (rte.js:243-253): a text node holding an end of the selection range
    is split at that end, and the end is moved onto the boundary just before the tail
    the split creates. The range is live, so each split also moves its ends as
    section 4.11 of the DOM Living Standard prescribes. */
module Sanitizer {
  import opened Wrappers
  import opened Dom
  import opened Edit
  import opened Boundary

  /** A boundary point a live range can hold: its offset is at most the node's
      length. */
  predicate ValidPoint(t: Tree, p: BoundaryPoint) {
    p.node in t.nodes && p.offset <= NodeLen(t, p.node)
  }

  predicate ValidRange(t: Tree, r: Range) {
    ValidPoint(t, r.start) && ValidPoint(t, r.end)
  }

  /** Where `n.splitText(offset)` moves a live boundary point `p`: inside the split
      node past the offset it moves into the new node (or, without a parent, to the
      offset), and in the parent past the split node it shifts by one. */
  function SplitPoint(t: Tree, p: BoundaryPoint, n: NodeId, offset: nat): (q: BoundaryPoint)
    requires Valid(t) && IsText(t, n)
    ensures q.node == p.node || (p.node == n && q.node == t.next)
  {
    if n in t.parent then
      if p.node == n && p.offset > offset then BP(t.next, p.offset - offset)
      else if p.node == t.parent[n] && p.offset > Index(t, n) then BP(p.node, p.offset + 1)
      else p
    else if p.node == n && p.offset > offset then BP(n, offset)
    else p
  }

  function SplitRange(t: Tree, r: Range, n: NodeId, offset: nat): Range
    requires Valid(t) && IsText(t, n)
  {
    Range(SplitPoint(t, r.start, n, offset), SplitPoint(t, r.end, n, offset))
  }

  /** The split moves no point of a live range off its node's length, and a point
      that was not in a text node stays out of text nodes. */
  lemma SplitPointValid(t: Tree, p: BoundaryPoint, n: NodeId, offset: nat)
    requires Valid(t) && IsText(t, n) && offset <= |t.nodes[n].data| && ValidPoint(t, p)
    ensures ValidPoint(SplitText(t, n, offset), SplitPoint(t, p, n, offset))
    ensures !IsText(t, p.node) ==> !IsText(SplitText(t, n, offset), SplitPoint(t, p, n, offset).node)
    ensures IsText(t, p.node) && p.node != n ==> SplitPoint(t, p, n, offset) == p
  {
    if n in t.parent {
      SplitPointAttached(t, p, n, offset);
    } else {
      SplitPointDetached(t, p, n, offset);
    }
  }

  lemma SplitPointAttached(t: Tree, p: BoundaryPoint, n: NodeId, offset: nat)
    requires Valid(t) && IsText(t, n) && offset <= |t.nodes[n].data| && ValidPoint(t, p) && n in t.parent
    ensures ValidPoint(SplitText(t, n, offset), SplitPoint(t, p, n, offset))
    ensures !IsText(t, p.node) ==> !IsText(SplitText(t, n, offset), SplitPoint(t, p, n, offset).node)
    ensures IsText(t, p.node) && p.node != n ==> SplitPoint(t, p, n, offset) == p
  {
    SplitAttachedFrame(t, n, offset);
    var r := SplitText(t, n, offset);
    var q := SplitPoint(t, p, n, offset);
    var par := t.parent[n];
    if p.node == n {
      assert q.node == n || q.node == t.next;
      assert r.nodes[q.node].Text?;
    } else if p.node == par {
      assert |Children(r, par)| == |Children(t, par)| + 1;
      assert r.nodes[par].Element? && q.node == par;
    } else {
      assert q == p && r.nodes[p.node] == t.nodes[p.node];
    }
  }

  lemma SplitPointDetached(t: Tree, p: BoundaryPoint, n: NodeId, offset: nat)
    requires Valid(t) && IsText(t, n) && offset <= |t.nodes[n].data| && ValidPoint(t, p) && n !in t.parent
    ensures ValidPoint(SplitText(t, n, offset), SplitPoint(t, p, n, offset))
    ensures !IsText(t, p.node) ==> !IsText(SplitText(t, n, offset), SplitPoint(t, p, n, offset).node)
    ensures IsText(t, p.node) && p.node != n ==> SplitPoint(t, p, n, offset) == p
  {
    SplitTextFrame(t, n, offset);
    var r := SplitText(t, n, offset);
    var q := SplitPoint(t, p, n, offset);
    if p.node == n {
      assert q.node == n && r.nodes[n].Text?;
    } else {
      assert q == p && r.nodes[p.node] == t.nodes[p.node];
    }
  }

  /** Both ends of a live range stay valid across a split; an end in a text node
      stays in the node it was in or moves into the new one. */
  lemma SplitRangeValid(t: Tree, rng: Range, n: NodeId, offset: nat)
    requires Valid(t) && IsText(t, n) && offset <= |t.nodes[n].data| && ValidRange(t, rng)
    ensures var r, m := SplitText(t, n, offset), SplitRange(t, rng, n, offset);
      && ValidRange(r, m)
      && (!IsText(t, rng.start.node) ==> !IsText(r, m.start.node))
      && (!IsText(t, rng.end.node) ==> !IsText(r, m.end.node))
      && (IsText(r, m.end.node) ==> m.end.node == t.next || m.end.node == rng.end.node)
  {
    SplitPointValid(t, rng.start, n, offset);
    SplitPointValid(t, rng.end, n, offset);
  }

  /** Setting the start of a range (section 5.5 of the DOM Living Standard): where
      the new start lies in another tree or after the end, the end moves to it too. */
  function SetStart(t: Tree, r: Range, bp: BoundaryPoint): (s: Range)
    requires Valid(t) && InTree(t, r.end) && InTree(t, bp)
    ensures s.start == bp && (s.end == r.end || s.end == bp)
    ensures InTree(t, s.end) && Compare(t, s.start, s.end) <= 0
  {
    if Root(t, bp.node) != Root(t, r.end.node) || Compare(t, bp, r.end) > 0 then
      LexCmpZero(Key(t, bp), Key(t, bp));
      Range(bp, bp)
    else Range(bp, r.end)
  }

  /** Setting the end of a range: where the new end lies in another tree or before
      the start, the start moves to it too. */
  function SetEnd(t: Tree, r: Range, bp: BoundaryPoint): (s: Range)
    requires Valid(t) && InTree(t, r.start) && InTree(t, bp)
    ensures s.end == bp && (s.start == r.start || s.start == bp)
    ensures InTree(t, s.start) && Compare(t, s.start, s.end) <= 0
  {
    if Root(t, bp.node) != Root(t, r.start.node) || Compare(t, bp, r.start) < 0 then
      LexCmpZero(Key(t, bp), Key(t, bp));
      Range(bp, bp)
    else
      LexCmpFlip(Key(t, bp), Key(t, r.start));
      Range(r.start, bp)
  }

  /** The point just before node `c` in its parent, `setStartBefore`/`setEndBefore`'s
      target; `None` where `c` has no parent and the host throws. */
  function Before(t: Tree, c: NodeId): (p: Option<BoundaryPoint>)
    requires Valid(t)
    ensures p.Some? <==> c in t.parent
    ensures p.Some? ==> p.value.node == t.parent[c] && p.value.offset == Index(t, c)
                        && ValidPoint(t, p.value) && !IsText(t, p.value.node)
  {
    if c in t.parent then Some(BP(t.parent[c], Index(t, c))) else None
  }

  /** The first half of `sanitize` (rte.js:244-247). The result is `None` where
      `setStartBefore` throws because the split node has no parent. */
  method SanitizeStart(t: Tree, rng: Range) returns (t': Tree, res: Option<Range>)
    requires Valid(t) && ValidRange(t, rng)
    ensures Valid(t')
    ensures res.Some? ==> ValidRange(t', res.value) && !IsText(t', res.value.start.node)
    ensures forall x :: IsElement(t, x) ==> IsElement(t', x) && TextContent(t', x) == TextContent(t, x)
    ensures !IsText(t, rng.start.node) ==> t' == t && res == Some(rng)
    ensures IsText(t, rng.start.node) ==>
              var n := rng.start.node;
              && t' == SplitText(t, n, rng.start.offset)
              && (res.Some? <==> n in t.parent)
              && (res.Some? ==> && t.next in t'.parent && t'.parent[t.next] == t.parent[n]
                                && res.value.start == BP(t.parent[n], Index(t', t.next))
                                && (res.value.end == SplitPoint(t, rng.end, n, rng.start.offset)
                                    || res.value.end == res.value.start)
                                && Compare(t', res.value.start, res.value.end) <= 0
                                && (!IsText(t, rng.end.node) ==> !IsText(t', res.value.end.node))
                                && (IsText(t', res.value.end.node) ==>
                                      res.value.end.node == t.next || res.value.end.node == rng.end.node))
  {
    if !IsText(t, rng.start.node) {
      return t, Some(rng);
    }
    var n := rng.start.node;
    var offset := rng.start.offset;
    var moved := SplitRange(t, rng, n, offset);
    SplitRangeValid(t, rng, n, offset);
    t' := SplitText(t, n, offset);
    forall x | IsElement(t, x)
      ensures IsElement(t', x) && TextContent(t', x) == TextContent(t, x)
    {
      SplitKeepsText(t, n, offset, x);
    }
    var bp := Before(t', t.next);
    if bp.None? {
      return t', None;
    }
    var r := SetStart(t', moved, bp.value);
    assert r.end == moved.end || r.end == bp.value;
    assert ValidRange(t', r) && !IsText(t', r.start.node);
    res := Some(r);
  }

  /** The second half of `sanitize` (rte.js:248-251), on the range the first half
      left. */
  method SanitizeEnd(t: Tree, rng: Range) returns (t': Tree, res: Option<Range>)
    requires Valid(t) && ValidRange(t, rng) && !IsText(t, rng.start.node)
    ensures Valid(t')
    ensures res.Some? ==> && ValidRange(t', res.value)
                          && !IsText(t', res.value.start.node) && !IsText(t', res.value.end.node)
    ensures forall x :: IsElement(t, x) ==> IsElement(t', x) && TextContent(t', x) == TextContent(t, x)
    ensures !IsText(t, rng.end.node) ==> t' == t && res == Some(rng)
    ensures IsText(t, rng.end.node) ==>
              var n := rng.end.node;
              && t' == SplitText(t, n, rng.end.offset)
              && (res.Some? <==> n in t.parent)
              && (res.Some? ==> && t.next in t'.parent && t'.parent[t.next] == t.parent[n]
                                && res.value.end == BP(t.parent[n], Index(t', t.next))
                                && (res.value.start == SplitPoint(t, rng.start, n, rng.end.offset)
                                    || res.value.start == res.value.end)
                                && Compare(t', res.value.start, res.value.end) <= 0)
  {
    if !IsText(t, rng.end.node) {
      return t, Some(rng);
    }
    var n := rng.end.node;
    var offset := rng.end.offset;
    var moved := SplitRange(t, rng, n, offset);
    SplitRangeValid(t, rng, n, offset);
    t' := SplitText(t, n, offset);
    forall x | IsElement(t, x)
      ensures IsElement(t', x) && TextContent(t', x) == TextContent(t, x)
    {
      SplitKeepsText(t, n, offset, x);
    }
    var bp := Before(t', t.next);
    if bp.None? {
      return t', None;
    }
    var r := SetEnd(t', moved, bp.value);
    assert r.start == moved.start || r.start == bp.value;
    assert ValidRange(t', r) && !IsText(t', r.start.node) && !IsText(t', r.end.node);
    res := Some(r);
  }

  /** `sanitize(range)`: afterwards neither end of the range is inside a text node.
      The result is `None` where the host throws because a split text node has no
      parent. */
  method Sanitize(t: Tree, rng: Range) returns (t': Tree, res: Option<Range>)
    requires Valid(t) && ValidRange(t, rng)
    ensures Valid(t')
    ensures !IsText(t, rng.start.node) && !IsText(t, rng.end.node) ==> t' == t && res == Some(rng)
    ensures ((IsText(t, rng.start.node) ==> rng.start.node in t.parent) &&
             (IsText(t, rng.end.node) ==> rng.end.node in t.parent)) ==> res.Some?
    ensures IsText(t, rng.start.node) && rng.start.node !in t.parent ==> res.None?
    ensures res.Some? ==> && ValidRange(t', res.value)
                          && !IsText(t', res.value.start.node) && !IsText(t', res.value.end.node)
    ensures res.Some? && (IsText(t, rng.start.node) || IsText(t, rng.end.node)) ==>
              Compare(t', res.value.start, res.value.end) <= 0
    ensures IsText(t, rng.start.node) && !IsText(t, rng.end.node) ==>
              t' == SplitText(t, rng.start.node, rng.start.offset)
    ensures !IsText(t, rng.start.node) && IsText(t, rng.end.node) ==>
              t' == SplitText(t, rng.end.node, rng.end.offset)
    ensures res.Some? && IsText(t, rng.start.node) && !IsText(t, rng.end.node) ==>
              var n := rng.start.node;
              && n in t.parent && t.next in t'.parent
              && res.value.start == BP(t.parent[n], Index(t', t.next))
              && (res.value.end == SplitPoint(t, rng.end, n, rng.start.offset)
                  || res.value.end == res.value.start)
    ensures res.Some? && !IsText(t, rng.start.node) && IsText(t, rng.end.node) ==>
              var n := rng.end.node;
              && n in t.parent && t.next in t'.parent
              && res.value.end == BP(t.parent[n], Index(t', t.next))
              && (res.value.start == SplitPoint(t, rng.start, n, rng.end.offset)
                  || res.value.start == res.value.end)
    ensures forall x :: IsElement(t, x) ==> IsElement(t', x) && TextContent(t', x) == TextContent(t, x)
  {
    var mid;
    t', mid := SanitizeStart(t, rng);
    if mid.None? {
      return t', None;
    }
    if IsText(t, rng.start.node) {
      SplitKeeps(t, rng.start.node, rng.start.offset, rng.end.node);
    }
    ghost var t1 := t';
    t', res := SanitizeEnd(t', mid.value);
    if res.Some? && IsText(t, rng.start.node) && !IsText(t1, mid.value.end.node) {
      assert t' == t1 && res == mid;
    }
  }

  /** Splitting a text node keeps every other node's kind and keeps attached nodes
      attached. */
  lemma SplitKeeps(t: Tree, n: NodeId, offset: nat, m: NodeId)
    requires Valid(t) && IsText(t, n) && offset <= |t.nodes[n].data| && m in t.nodes
    ensures var r := SplitText(t, n, offset);
      && (IsText(r, m) <==> IsText(t, m))
      && (m in t.parent ==> m in r.parent)
  {
    SplitTextFrame(t, n, offset);
  }
}
