/** `getCharacterCaretPosition(doc, range, node)` (rte.js:565-587): a tree walker
    over the text nodes under `node` adds up the lengths of those that end at or
    before the end of the range, then adds the range's start offset when the range
    starts in a text node. */
module Caret {
  import opened Wrappers
  import opened Dom
  import opened Boundary

  /** The text nodes under the children of `n` from index `i` on, in tree order: the
      nodes a `SHOW_TEXT` walker rooted at `n` can show. */
  function TextsFrom(t: Tree, n: NodeId, i: nat): (xs: seq<NodeId>)
    requires Valid(t) && n in t.nodes && i <= |Children(t, n)|
    ensures forall k :: 0 <= k < |xs| ==> IsText(t, xs[k]) && xs[k] in t.parent
    decreases t.rank[n], |Children(t, n)| - i
  {
    if i == |Children(t, n)| then []
    else
      ChildOf(t, n, i);
      var c := Children(t, n)[i];
      (if IsText(t, c) then [c] else TextsFrom(t, c, 0)) + TextsFrom(t, n, i + 1)
  }

  /** The walker's filter (rte.js:569-574): accept a text node when the point just
      after it is at or before the end of the range. */
  predicate Accepted(t: Tree, rng: Range, x: NodeId)
    requires Valid(t) && x in t.parent && InTree(t, rng.start) && InTree(t, rng.end)
  {
    Compare(t, NodeRange(t, x).end, rng.end) < 1
  }

  /** `Accepted` is the filter's `compareBoundaryPoints(END_TO_END, range) < 1`. */
  lemma AcceptedIsFilter(t: Tree, rng: Range, x: NodeId)
    requires Valid(t) && x in t.parent && InTree(t, rng.start) && InTree(t, rng.end)
    ensures Accepted(t, rng, x) <==> CompareBoundaryPoints(t, END_TO_END, NodeRange(t, x), rng) < 1
  {
  }

  /** What each node of `xs` adds to the count: its length when the filter accepts
      it, nothing otherwise. */
  function Weights(t: Tree, rng: Range, xs: seq<NodeId>): (w: seq<nat>)
    requires Valid(t) && InTree(t, rng.start) && InTree(t, rng.end)
    requires forall k :: 0 <= k < |xs| ==> IsText(t, xs[k]) && xs[k] in t.parent
    ensures |w| == |xs|
    ensures forall k {:trigger w[k]} :: 0 <= k < |xs| ==> w[k] == if Accepted(t, rng, xs[k]) then NodeLen(t, xs[k]) else 0
  {
    seq(|xs|, k requires 0 <= k < |xs| => if Accepted(t, rng, xs[k]) then NodeLen(t, xs[k]) else 0)
  }

  function Sum(w: seq<nat>): nat {
    if w == [] then 0 else Sum(w[..|w| - 1]) + w[|w| - 1]
  }

  /** The text nodes of `xs` are in the range's tree, so the filter's
      `compareBoundaryPoints` does not throw. */
  predicate SameTree(t: Tree, rng: Range, xs: seq<NodeId>)
    requires Valid(t) && InTree(t, rng.start)
    requires forall k :: 0 <= k < |xs| ==> xs[k] in t.nodes
  {
    forall k :: 0 <= k < |xs| ==> Root(t, xs[k]) == Root(t, rng.start.node)
  }

  /** The part of the position the walk does not count: the start offset when the
      range starts inside a text node (rte.js:583-585). */
  function StartOffset(t: Tree, rng: Range): nat {
    if IsText(t, rng.start.node) then rng.start.offset else 0
  }

  /** The position for the text nodes `xs`; `None` when the filter throws on one. */
  function CaretOf(t: Tree, rng: Range, xs: seq<NodeId>): Option<nat>
    requires Valid(t) && InTree(t, rng.start) && InTree(t, rng.end)
    requires forall k :: 0 <= k < |xs| ==> IsText(t, xs[k]) && xs[k] in t.parent
  {
    if !SameTree(t, rng, xs) then None else Some(Sum(Weights(t, rng, xs)) + StartOffset(t, rng))
  }

  /** What `getCharacterCaretPosition` returns; `None` when it throws, which happens
      exactly when `node` has text below it and lies in another tree than the range.
      The position counts at most every text below `node` plus the start offset. */
  function CaretPosition(t: Tree, rng: Range, n: NodeId): (p: Option<nat>)
    requires Valid(t) && n in t.nodes && InTree(t, rng.start) && InTree(t, rng.end)
    ensures p.None? <==> TextsFrom(t, n, 0) != [] && Root(t, n) != Root(t, rng.start.node)
    ensures p.Some? ==> StartOffset(t, rng) <= p.value <= Lengths(t, TextsFrom(t, n, 0)) + StartOffset(t, rng)
  {
    var xs := TextsFrom(t, n, 0);
    TextsRoot(t, n, 0);
    WeightsBelowLengths(t, rng, xs);
    CaretOf(t, rng, xs)
  }

  /** Every text node under `n` is in `n`'s tree. */
  lemma {:induction false} TextsRoot(t: Tree, n: NodeId, i: nat)
    requires Valid(t) && n in t.nodes && i <= |Children(t, n)|
    ensures forall x :: x in TextsFrom(t, n, i) ==> Root(t, x) == Root(t, n)
    decreases t.rank[n], |Children(t, n)| - i
  {
    if i < |Children(t, n)| {
      ChildOf(t, n, i);
      var c := Children(t, n)[i];
      RootPathStep(t, c);
      if !IsText(t, c) {
        TextsRoot(t, c, 0);
      }
      TextsRoot(t, n, i + 1);
    }
  }

  /** The counted weights add up to at most the lengths of all the texts. */
  lemma WeightsBelowLengths(t: Tree, rng: Range, xs: seq<NodeId>)
    requires Valid(t) && InTree(t, rng.start) && InTree(t, rng.end)
    requires forall k :: 0 <= k < |xs| ==> IsText(t, xs[k]) && xs[k] in t.parent
    ensures Sum(Weights(t, rng, xs)) <= Lengths(t, xs)
  {
    SumBelow(Weights(t, rng, xs), seq(|xs|, k requires 0 <= k < |xs| => NodeLen(t, xs[k])));
  }

  /** A sum is at most the sum of entries that bound it pointwise. */
  lemma {:induction false} SumBelow(w: seq<nat>, l: seq<nat>)
    requires |w| == |l| && forall k :: 0 <= k < |w| ==> w[k] <= l[k]
    ensures Sum(w) <= Sum(l)
  {
    if w != [] {
      SumBelow(w[..|w| - 1], l[..|l| - 1]);
    }
  }

  method GetCharacterCaretPosition(t: Tree, rng: Range, n: NodeId) returns (pos: Option<nat>)
    requires Valid(t) && n in t.nodes && InTree(t, rng.start) && InTree(t, rng.end)
    ensures pos == CaretPosition(t, rng, n)
  {
    var xs := TextsFrom(t, n, 0);
    var cnt := CountAccepted(t, rng, xs);
    if cnt.None? {
      pos := None;
    } else {
      var total := cnt.value;
      if IsText(t, rng.start.node) {
        total := total + rng.start.offset;
      }
      assert total == cnt.value + StartOffset(t, rng);
      CaretOfAll(t, rng, xs, cnt.value);
      SomeOf(CaretOf(t, rng, xs), total);
      pos := Some(total);
    }
    PositionOf(t, rng, n, pos);
  }

  lemma SomeOf(x: Option<nat>, v: nat)
    requires x.Some? && x.value == v
    ensures x == Some(v)
  {
  }

  /** The walker loop of rte.js:579-582 over the text nodes `xs`: the sum of the
      lengths the filter accepts, `None` when the filter throws on a node of another
      tree. */
  method CountAccepted(t: Tree, rng: Range, xs: seq<NodeId>) returns (cnt: Option<nat>)
    requires Valid(t) && InTree(t, rng.start) && InTree(t, rng.end)
    requires forall k :: 0 <= k < |xs| ==> IsText(t, xs[k]) && xs[k] in t.parent
    ensures cnt.None? <==> !SameTree(t, rng, xs)
    ensures cnt.Some? ==> cnt.value == Sum(Weights(t, rng, xs))
  {
    ghost var w := Weights(t, rng, xs);
    var sum := 0;
    var i := 0;
    while i < |xs|
      invariant i <= |xs| && SameTree(t, rng, xs[..i]) && sum == Sum(w[..i])
    {
      var x := xs[i];
      if Root(t, x) != Root(t, rng.start.node) {
        // compareBoundaryPoints throws a WrongDocumentError
        return None;
      }
      SumStep(w, i);
      SameTreeStep(t, rng, xs, i);
      if Accepted(t, rng, x) {
        sum := sum + NodeLen(t, x);
      }
      i := i + 1;
    }
    assert xs[..i] == xs && w[..i] == w;
    return Some(sum);
  }

  /** `CaretPosition` is `CaretOf` on the texts below the node. */
  lemma PositionOf(t: Tree, rng: Range, n: NodeId, v: Option<nat>)
    requires Valid(t) && n in t.nodes && InTree(t, rng.start) && InTree(t, rng.end)
    requires CaretOf(t, rng, TextsFrom(t, n, 0)) == v
    ensures CaretPosition(t, rng, n) == v
  {
  }

  lemma SameTreeStep(t: Tree, rng: Range, xs: seq<NodeId>, i: nat)
    requires Valid(t) && InTree(t, rng.start) && i < |xs|
    requires forall k :: 0 <= k < |xs| ==> xs[k] in t.nodes
    requires SameTree(t, rng, xs[..i]) && Root(t, xs[i]) == Root(t, rng.start.node)
    ensures SameTree(t, rng, xs[..i + 1])
  {
  }

  /** When the walk does not throw, the position is the counted total plus the
      start offset. */
  lemma CaretOfAll(t: Tree, rng: Range, xs: seq<NodeId>, total: nat)
    requires Valid(t) && InTree(t, rng.start) && InTree(t, rng.end)
    requires forall k :: 0 <= k < |xs| ==> IsText(t, xs[k]) && xs[k] in t.parent
    requires SameTree(t, rng, xs) && total == Sum(Weights(t, rng, xs))
    ensures CaretOf(t, rng, xs).Some? && CaretOf(t, rng, xs).value == total + StartOffset(t, rng)
  {
  }

  lemma SumStep(w: seq<nat>, i: nat)
    requires i < |w|
    ensures Sum(w[..i + 1]) == Sum(w[..i]) + w[i]
  {
    assert w[..i + 1][..i] == w[..i];
  }

  /** A sum of weights that copy `l` below `j` and are zero from `j` on is the sum of
      the first `j` entries of `l`. */
  lemma {:induction false} SumMasked(w: seq<nat>, l: seq<nat>, j: nat)
    requires |w| == |l| && j <= |l|
    requires forall k :: 0 <= k < |w| ==> w[k] == if k < j then l[k] else 0
    ensures Sum(w) == Sum(l[..j])
  {
    if |w| == j {
      assert w == l[..j];
    } else {
      var m := |w| - 1;
      SumMasked(w[..m], l[..m], j);
      assert l[..m][..j] == l[..j];
    }
  }

  /** The lengths of the text nodes `xs`, added up. */
  function Lengths(t: Tree, xs: seq<NodeId>): nat
    requires forall k :: 0 <= k < |xs| ==> xs[k] in t.nodes
  {
    Sum(seq(|xs|, k requires 0 <= k < |xs| => NodeLen(t, xs[k])))
  }

  /** For a caret at offset `o` of the `j`-th of a row of text nodes, the position is
      the length of the texts before it plus `o`. */
  lemma CaretInRow(t: Tree, n: NodeId, j: nat, o: nat)
    requires Valid(t) && IsElement(t, n) && j < |Children(t, n)|
    requires forall k :: 0 <= k < |Children(t, n)| ==> IsText(t, Children(t, n)[k])
    ensures var x := Children(t, n)[j];
      var pos := CaretPosition(t, Range(BP(x, o), BP(x, o)), n);
      pos.Some? && pos.value == Lengths(t, Children(t, n)[..j]) + o
  {
    RowPosition(t, n, j, o);
    RowWeights(t, n, j, o);
  }

  /** In a row, the walk visits the row itself and never throws. */
  lemma RowPosition(t: Tree, n: NodeId, j: nat, o: nat)
    requires Valid(t) && IsElement(t, n) && j < |Children(t, n)|
    requires forall k :: 0 <= k < |Children(t, n)| ==> IsText(t, Children(t, n)[k])
    ensures var cs, x := Children(t, n), Children(t, n)[j];
      var rng := Range(BP(x, o), BP(x, o));
      CaretPosition(t, rng, n).Some? && CaretPosition(t, rng, n).value == Sum(Weights(t, rng, cs)) + o
  {
    var cs := Children(t, n);
    var x := cs[j];
    var rng := Range(BP(x, o), BP(x, o));
    RowTexts(t, n, 0);
    assert cs[0..] == cs;
    RowSameTree(t, n, j, o);
    CaretOfAll(t, rng, cs, Sum(Weights(t, rng, cs)));
  }

  /** In a row, the walk counts the lengths of the texts before the caret's. */
  lemma RowWeights(t: Tree, n: NodeId, j: nat, o: nat)
    requires Valid(t) && IsElement(t, n) && j < |Children(t, n)|
    requires forall k :: 0 <= k < |Children(t, n)| ==> IsText(t, Children(t, n)[k])
    ensures var cs, x := Children(t, n), Children(t, n)[j];
      Sum(Weights(t, Range(BP(x, o), BP(x, o)), cs)) == Lengths(t, cs[..j])
  {
    var cs := Children(t, n);
    var x := cs[j];
    var rng := Range(BP(x, o), BP(x, o));
    var w := Weights(t, rng, cs);
    var l := seq(|cs|, k requires 0 <= k < |cs| => NodeLen(t, cs[k]));
    forall k | 0 <= k < |cs|
      ensures w[k] == if k < j then l[k] else 0
    {
      RowAccepted(t, n, j, o, k);
    }
    SumMasked(w, l, j);
    LengthsPrefix(t, cs, l, j);
  }

  /** The first `j` lengths of `xs` are the lengths of its first `j` nodes. */
  lemma LengthsPrefix(t: Tree, xs: seq<NodeId>, l: seq<nat>, j: nat)
    requires j <= |xs| && forall k :: 0 <= k < |xs| ==> xs[k] in t.nodes
    requires l == seq(|xs|, k requires 0 <= k < |xs| => NodeLen(t, xs[k]))
    ensures Sum(l[..j]) == Lengths(t, xs[..j])
  {
    assert l[..j] == seq(j, k requires 0 <= k < j => NodeLen(t, xs[..j][k]));
  }

  /** The texts of a row are in the tree of each of them. */
  lemma RowSameTree(t: Tree, n: NodeId, j: nat, o: nat)
    requires Valid(t) && IsElement(t, n) && j < |Children(t, n)|
    requires forall k :: 0 <= k < |Children(t, n)| ==> IsText(t, Children(t, n)[k])
    ensures var cs, x := Children(t, n), Children(t, n)[j];
      && (forall k :: 0 <= k < |cs| ==> cs[k] in t.parent)
      && SameTree(t, Range(BP(x, o), BP(x, o)), cs)
  {
    var cs := Children(t, n);
    forall k | 0 <= k < |cs|
      ensures cs[k] in t.parent && Root(t, cs[k]) == Root(t, n)
    {
      ChildOf(t, n, k);
      RootPathStep(t, cs[k]);
    }
  }

  /** A row of text nodes is its own list of text nodes. */
  lemma {:induction false} RowTexts(t: Tree, n: NodeId, i: nat)
    requires Valid(t) && IsElement(t, n) && i <= |Children(t, n)|
    requires forall k :: 0 <= k < |Children(t, n)| ==> IsText(t, Children(t, n)[k])
    ensures TextsFrom(t, n, i) == Children(t, n)[i..]
    decreases |Children(t, n)| - i
  {
    if i < |Children(t, n)| {
      RowTexts(t, n, i + 1);
      assert Children(t, n)[i..] == [Children(t, n)[i]] + Children(t, n)[i + 1..];
    }
  }

  /** The walker accepts exactly the texts before the caret's. */
  lemma RowAccepted(t: Tree, n: NodeId, j: nat, o: nat, k: nat)
    requires Valid(t) && IsElement(t, n) && j < |Children(t, n)| && k < |Children(t, n)|
    ensures var cs, x := Children(t, n), Children(t, n)[j];
      cs[k] in t.parent && (Accepted(t, Range(BP(x, o), BP(x, o)), cs[k]) <==> k < j)
  {
    var cs, x := Children(t, n), Children(t, n)[j];
    ChildOf(t, n, j);
    ChildOf(t, n, k);
    RowKeys(t, n, x, j, o, k + 1);
    var pre := [Root(t, n)] + Path(t, n);
    RowOrder(pre, k, j, o);
    var e := NodeRange(t, cs[k]).end;
    assert e == BP(n, k + 1);
    assert Accepted(t, Range(BP(x, o), BP(x, o)), cs[k]) <==> LexCmp(pre + [k + 1], pre + [j, o]) < 1;
  }

  lemma RowKeys(t: Tree, n: NodeId, x: NodeId, j: nat, o: nat, m: nat)
    requires Valid(t) && x in t.parent && t.parent[x] == n && Index(t, x) == j
    ensures n in t.nodes
    ensures var pre := [Root(t, n)] + Path(t, n);
      Key(t, BP(n, m)) == pre + [m] && Key(t, BP(x, o)) == pre + [j, o]
  {
    RootPathStep(t, x);
    var r, pp := Root(t, n), Path(t, n);
    assert [r] + (pp + [j]) + [o] == ([r] + pp) + [j, o];
  }

  lemma RowOrder(pre: seq<nat>, k: nat, j: nat, o: nat)
    ensures LexCmp(pre + [k + 1], pre + [j, o]) < 1 <==> k < j
  {
    LexCmpCommonPrefix(pre, [k + 1], [j, o]);
    if k + 1 == j {
      assert LexCmp([k + 1][1..], [j, o][1..]) == -1;
    }
  }
}
