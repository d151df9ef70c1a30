/** The bold toggle on one node: the tests and the contained-node branch of
    `checkNode` (rte.js:188-229) with the predicates they use (rte.js:255-268). A
    node wholly inside the selection range has its weight toggled, a node outside
    it is skipped, and a node the range crosses is searched child by child (the
    walk itself is in `BoldWalk`). */
module Bold {
  import opened Wrappers
  import opened Dom
  import opened Edit
  import opened Boundary
  import opened Sanitizer
  import opened Frame

  /** `containsRteSpanClass` (rte.js:255-257): a text node has no class list. */
  predicate ContainsRteSpanClass(t: Tree, n: NodeId): (b: bool)
    requires n in t.nodes
    ensures IsText(t, n) ==> !b
  {
    t.nodes[n].Element? && "rte_span" in t.nodes[n].classes
  }

  /** `isBold` (rte.js:262-264): a text node has no `style`, so it is never bold. */
  predicate IsBold(t: Tree, n: NodeId): (b: bool)
    requires n in t.nodes
    ensures IsText(t, n) ==> !b
  {
    t.nodes[n].Element? && t.nodes[n].fontWeight == "bold"
  }

  /** `isBoldDecorativeTag` (rte.js:266-268): a text node's name is `#text`. */
  predicate IsBoldDecorativeTag(t: Tree, n: NodeId): (b: bool)
    requires n in t.nodes
    ensures IsText(t, n) ==> !b
  {
    t.nodes[n].Element? && (t.nodes[n].nodeName == "STRONG" || t.nodes[n].nodeName == "B")
  }

  /** How the range and the range selecting a node relate. */
  datatype Overlap = Contained | Disjoint | Crossing

  /** The two tests of `checkNode` (rte.js:190-193 and 226-229) as intended: the node
      is contained when the range starts at or before it and ends at or after it, and
      disjoint when the range ends at or before its start or starts at or after its
      end. */
  function Classify(t: Tree, rng: Range, n: NodeId): (o: Overlap)
    requires Valid(t) && n in t.parent && InTree(t, rng.start) && InTree(t, rng.end)
    ensures o == Contained ==> Compare(t, rng.start, rng.end) < 0
  {
    var nr := NodeRange(t, n);
    NodeRangeOrdered(t, n);
    InsideOrdered(Key(t, rng.start), Key(t, nr.start), Key(t, nr.end), Key(t, rng.end));
    if CompareBoundaryPoints(t, START_TO_START, rng, nr) <= 0
       && CompareBoundaryPoints(t, END_TO_END, rng, nr) >= 0 then Contained
    else if CompareBoundaryPoints(t, START_TO_END, rng, nr) <= 0
            || CompareBoundaryPoints(t, END_TO_START, rng, nr) >= 0 then Disjoint
    else Crossing
  }

  /** The same tests as the source writes them: `Range.ENDT_TO_START` is not a
      constant of `Range`, so the call receives `undefined`, which the WebIDL
      `unsigned short` conversion turns into 0, `START_TO_START`. */
  function ClassifyAsWritten(t: Tree, rng: Range, n: NodeId): (o: Overlap)
    requires Valid(t) && n in t.parent && InTree(t, rng.start) && InTree(t, rng.end)
    ensures o == Contained <==> Classify(t, rng, n) == Contained
    ensures Classify(t, rng, n) == Disjoint ==> o == Disjoint
  {
    var nr := NodeRange(t, n);
    NodeRangeOrdered(t, n);
    AfterEndAfterStart(Key(t, rng.start), Key(t, nr.start), Key(t, nr.end));
    if CompareBoundaryPoints(t, START_TO_START, rng, nr) <= 0
       && CompareBoundaryPoints(t, END_TO_END, rng, nr) >= 0 then Contained
    else if CompareBoundaryPoints(t, START_TO_END, rng, nr) <= 0
            || CompareBoundaryPoints(t, START_TO_START, rng, nr) >= 0 then Disjoint
    else Crossing
  }

  /** A range that holds a non-empty range `[ns, ne]` is not empty itself. */
  lemma InsideOrdered(s: seq<nat>, ns: seq<nat>, ne: seq<nat>, e: seq<nat>)
    requires LexCmp(ns, ne) < 0
    ensures LexCmp(s, ns) <= 0 && LexCmp(e, ne) >= 0 ==> LexCmp(s, e) < 0
  {
    LexCmpFlip(e, ne);
    LexCmpTrans(s, ns, ne);
    LexCmpTrans(s, ne, e);
  }

  /** A point at or after the end of a non-empty range is after its start. */
  lemma AfterEndAfterStart(s: seq<nat>, ns: seq<nat>, ne: seq<nat>)
    requires LexCmp(ns, ne) < 0
    ensures LexCmp(s, ne) >= 0 ==> LexCmp(s, ns) > 0
  {
    LexCmpFlip(s, ne);
    LexCmpFlip(s, ns);
    LexCmpTrans(ns, ne, s);
  }

  /** `Classify` on the keys of the four boundary points it compares. */
  lemma ClassifyKeys(t: Tree, rng: Range, n: NodeId)
    requires Valid(t) && n in t.parent && InTree(t, rng.start) && InTree(t, rng.end)
    ensures var nr := NodeRange(t, n);
      var s, e, ns, ne := Key(t, rng.start), Key(t, rng.end), Key(t, nr.start), Key(t, nr.end);
      Classify(t, rng, n) ==
        if LexCmp(s, ns) <= 0 && LexCmp(e, ne) >= 0 then Contained
        else if LexCmp(e, ns) <= 0 || LexCmp(s, ne) >= 0 then Disjoint
        else Crossing
  {
  }

  /** A key that is a proper prefix of another sorts first. */
  lemma PrefixFirst(a: seq<nat>, b: seq<nat>)
    requires b != []
    ensures LexCmp(a, a + b) == -1
  {
    LexCmpCommonPrefix(a, [], b);
    assert a + [] == a;
  }

  /** The keys of the points just before and just after a child at index `j` of the
      node at index `k` below `pre` extend the key of the point before that node (so
      they sort after it), and the point after the child sorts before the point
      after the node. */
  lemma NestedKeys(pre: seq<nat>, k: nat, j: nat)
    ensures LexCmp(pre + [k], (pre + [k]) + [j]) == -1
    ensures LexCmp((pre + [k]) + [j], pre + [k, j + 1]) == -1
    ensures LexCmp(pre + [k, j + 1], pre + [k + 1]) == -1
  {
    PrefixFirst(pre + [k], [j]);
    LexCmpCommonPrefix(pre + [k], [j], [j + 1]);
    assert pre + [k, j + 1] == (pre + [k]) + [j + 1];
    LexCmpCommonPrefix(pre, [k, j + 1], [k + 1]);
  }

  /** `NestedKeys` on keys given by name. */
  lemma NestedKeysAt(pre: seq<nat>, k: nat, j: nat, ns: seq<nat>, ne: seq<nat>, cs: seq<nat>, ce: seq<nat>)
    requires ns == pre + [k] && ne == pre + [k + 1] && cs == ns + [j] && ce == ns + [j + 1]
    ensures LexCmp(ns, cs) == -1 && LexCmp(cs, ce) == -1 && LexCmp(ce, ne) == -1
  {
    NestedKeys(pre, k, j);
    assert pre + [k, j + 1] == (pre + [k]) + [j + 1];
  }

  /** The key of a point inside an attached node `n` extends the key of the point
      just before `n`. */
  lemma KeyBelow(t: Tree, n: NodeId, o: nat)
    requires Valid(t) && n in t.parent
    ensures n in t.nodes
    ensures Key(t, BP(n, o)) == ([Root(t, t.parent[n])] + Path(t, t.parent[n]) + [Index(t, n)]) + [o]
  {
    RootPathStep(t, n);
    var r, pp, k := Root(t, t.parent[n]), Path(t, t.parent[n]), Index(t, n);
    assert [r] + (pp + [k]) + [o] == (([r] + pp) + [k]) + [o];
  }

  /** The order facts behind `DisjointChildren`, on keys: a child range nested in a
      range disjoint from the selection is disjoint from it and not contained in it. */
  lemma DisjointInside(s: seq<nat>, e: seq<nat>, ns: seq<nat>, ne: seq<nat>, cs: seq<nat>, ce: seq<nat>)
    requires LexCmp(ns, cs) == -1 && LexCmp(cs, ce) == -1 && LexCmp(ce, ne) == -1
    requires LexCmp(e, ns) <= 0 || LexCmp(s, ne) >= 0
    ensures LexCmp(e, cs) <= 0 || LexCmp(s, ce) >= 0
    ensures !(LexCmp(s, cs) <= 0 && LexCmp(e, ce) >= 0)
  {
    if LexCmp(e, ns) <= 0 {
      EndsBefore(e, ns, cs, ce);
    } else {
      StartsAfter(s, ne, cs, ce);
    }
  }

  lemma EndsBefore(e: seq<nat>, ns: seq<nat>, cs: seq<nat>, ce: seq<nat>)
    requires LexCmp(ns, cs) == -1 && LexCmp(cs, ce) == -1 && LexCmp(e, ns) <= 0
    ensures LexCmp(e, cs) < 0 && LexCmp(e, ce) < 0
  {
    LexCmpTrans(e, ns, cs);
    LexCmpTrans(e, cs, ce);
  }

  lemma StartsAfter(s: seq<nat>, ne: seq<nat>, cs: seq<nat>, ce: seq<nat>)
    requires LexCmp(cs, ce) == -1 && LexCmp(ce, ne) == -1 && LexCmp(s, ne) >= 0
    ensures LexCmp(s, cs) > 0 && LexCmp(s, ce) > 0
  {
    LexCmpFlip(s, ne);
    LexCmpTrans(ce, ne, s);
    LexCmpTrans(cs, ce, s);
    LexCmpFlip(s, ce);
    LexCmpFlip(s, cs);
  }

  /** The node range of a child `c` of `n` lies strictly inside the node range of `n`. */
  lemma ChildRangeInside(t: Tree, n: NodeId, c: NodeId)
    requires Valid(t) && n in t.parent && c in t.parent && t.parent[c] == n
    ensures var nr, cr := NodeRange(t, n), NodeRange(t, c);
      && LexCmp(Key(t, nr.start), Key(t, cr.start)) == -1
      && LexCmp(Key(t, cr.start), Key(t, cr.end)) == -1
      && LexCmp(Key(t, cr.end), Key(t, nr.end)) == -1
  {
    var nr, cr := NodeRange(t, n), NodeRange(t, c);
    var pre, k, j := [Root(t, t.parent[n])] + Path(t, t.parent[n]), Index(t, n), Index(t, c);
    KeyBelow(t, n, j);
    KeyBelow(t, n, j + 1);
    NestedKeysAt(pre, k, j, Key(t, nr.start), Key(t, nr.end), Key(t, cr.start), Key(t, cr.end));
  }

  /** Skipping a disjoint node is safe: each of its children is disjoint too. */
  lemma DisjointChildren(t: Tree, rng: Range, n: NodeId, c: NodeId)
    requires Valid(t) && InTree(t, rng.start) && InTree(t, rng.end)
    requires n in t.parent && c in t.parent && t.parent[c] == n
    requires Classify(t, rng, n) == Disjoint
    ensures Classify(t, rng, c) == Disjoint
  {
    var nr, cr := NodeRange(t, n), NodeRange(t, c);
    ClassifyKeys(t, rng, n);
    ClassifyKeys(t, rng, c);
    ChildRangeInside(t, n, c);
    DisjointInside(Key(t, rng.start), Key(t, rng.end), Key(t, nr.start), Key(t, nr.end),
                   Key(t, cr.start), Key(t, cr.end));
  }

  /** An editor DIV (id 0) holding a paragraph (1) with the texts "a" (2) and "b"
      (3); the range runs from the start of the DIV to the point between the texts,
      so it selects "a". */
  function TypoTree(): Tree {
    Tree(map[0 := Element("DIV", {}, "", map[], [1]), 1 := Element("P", {}, "", map[], [2, 3]),
             2 := Text("a"), 3 := Text("b")],
         map[1 := 0, 2 := 1, 3 := 1], map[0 := 2, 1 := 1, 2 := 0, 3 := 0], 4)
  }

  function TypoRange(): Range {
    Range(BP(0, 0), BP(1, 1))
  }

  lemma TypoShape()
    ensures var t := TypoTree();
      && 0 in t.nodes && 0 !in t.parent && 1 in t.parent && 2 in t.parent
      && t.parent[1] == 0 && t.parent[2] == 1
      && t.nodes[0].children == [1] && t.nodes[1].children == [2, 3]
  {
  }

  lemma TypoTreeValid()
    ensures Valid(TypoTree())
  {
    var t := TypoTree();
    assert t.parent.Keys == {1, 2, 3} && t.nodes.Keys == {0, 1, 2, 3};
    assert RanksOk(t);
    assert ParentsOk(t) by {
      forall c | c in t.parent
        ensures t.parent[c] in t.nodes && t.nodes[t.parent[c]].Element?
        ensures c in t.nodes[t.parent[c]].children && t.rank[c] < t.rank[t.parent[c]]
      {
        assert c == 1 || c == 2 || c == 3;
      }
    }
    assert ChildrenOk(t) by {
      forall q, k | q in t.nodes && t.nodes[q].Element? && 0 <= k < |t.nodes[q].children|
        ensures t.nodes[q].children[k] in t.parent && t.parent[t.nodes[q].children[k]] == q
      {
        assert q == 0 || q == 1;
      }
    }
    assert DistinctOk(t) by {
      forall q, j, k | q in t.nodes && t.nodes[q].Element? && 0 <= j < k < |t.nodes[q].children|
        ensures t.nodes[q].children[j] != t.nodes[q].children[k]
      {
        assert q == 0 || q == 1;
      }
    }
  }

  /** Roots, paths and indices in the counterexample's tree. */
  lemma TypoPaths()
    ensures Valid(TypoTree()) && 1 in TypoTree().parent && 2 in TypoTree().parent
    ensures var t := TypoTree();
      && Index(t, 1) == 0 && Index(t, 2) == 0
      && Root(t, 0) == 0 && Path(t, 0) == [] && Root(t, 1) == 0 && Path(t, 1) == [0]
  {
    TypoShape();
    TypoTreeValid();
    var t := TypoTree();
    assert Ancestors(t, 0) == [0];
    RootPathStep(t, 1);
    assert IndexOf([1], 1) == 0 && IndexOf([2, 3], 2) == 0;
  }

  /** Keys of points in a root `r` and in its first child `c`. */
  lemma ShallowKeys(t: Tree, r: NodeId, c: NodeId, k: nat)
    requires Valid(t) && r in t.nodes && r !in t.parent
    requires c in t.parent && t.parent[c] == r && Index(t, c) == 0
    ensures Key(t, BP(r, k)) == [r, k] && Key(t, BP(c, k)) == [r, 0, k]
  {
    assert Ancestors(t, r) == [r];
    RootPathStep(t, c);
  }

  /** The keys of a range from offset 0 of a root to offset 1 of its first child
      `p`, and of the node ranges of `p` and of `p`'s first child `a`. */
  lemma TwoLevelKeys(t: Tree, rng: Range, p: NodeId, a: NodeId)
    requires Valid(t) && 0 in t.nodes && 0 !in t.parent && rng == Range(BP(0, 0), BP(p, 1))
    requires p in t.parent && t.parent[p] == 0 && Index(t, p) == 0
    requires a in t.parent && t.parent[a] == p && Index(t, a) == 0
    ensures Key(t, rng.start) == [0, 0] && Key(t, rng.end) == [0, 0, 1]
    ensures Key(t, NodeRange(t, p).start) == [0, 0] && Key(t, NodeRange(t, p).end) == [0, 1]
    ensures Key(t, NodeRange(t, a).start) == [0, 0, 0] && Key(t, NodeRange(t, a).end) == [0, 0, 1]
  {
    ShallowKeys(t, 0, p, 0);
    ShallowKeys(t, 0, p, 1);
  }

  /** In any tree of the counterexample's shape, the source's second test calls
      the paragraph `p` disjoint from a range that crosses it and contains its
      first child `a`. */
  lemma TwoLevelClassify(t: Tree, rng: Range, p: NodeId, a: NodeId)
    requires Valid(t) && 0 in t.nodes && 0 !in t.parent && rng == Range(BP(0, 0), BP(p, 1))
    requires p in t.parent && t.parent[p] == 0 && Index(t, p) == 0
    requires a in t.parent && t.parent[a] == p && Index(t, a) == 0
    ensures ClassifyAsWritten(t, rng, p) == Disjoint
    ensures Classify(t, rng, p) == Crossing
    ensures Classify(t, rng, a) == Contained
  {
    TwoLevelKeys(t, rng, p, a);
    ClassifyKeys(t, rng, p);
    ClassifyKeys(t, rng, a);
    AsWrittenKeys(t, rng, p);
    assert LexCmp([0, 0], [0, 0]) == 0;
    assert LexCmp([0, 0, 1], [0, 1]) == -1;
    assert LexCmp([0, 0, 1], [0, 0]) == 1;
    assert LexCmp([0, 0], [0, 1]) == -1;
    assert LexCmp([0, 0], [0, 0, 0]) == -1;
    assert LexCmp([0, 0, 1], [0, 0, 1]) == 0;
  }

  /** The paragraph crosses the range and its first text lies inside it, yet the
      source's second test calls the paragraph disjoint, so `checkNode` returns
      without looking at "a" and the selected text is not made bold. */
  lemma TypoSkipsSelectedText()
    ensures Valid(TypoTree()) && 1 in TypoTree().parent && 2 in TypoTree().parent
    ensures ClassifyAsWritten(TypoTree(), TypoRange(), 1) == Disjoint
    ensures Classify(TypoTree(), TypoRange(), 1) == Crossing
    ensures Classify(TypoTree(), TypoRange(), 2) == Contained
  {
    TypoShape();
    TypoPaths();
    var t := TypoTree();
    TwoLevelClassify(t, TypoRange(), 1, 2);
  }

  /** `ClassifyAsWritten` on the keys of the points it compares. */
  lemma AsWrittenKeys(t: Tree, rng: Range, n: NodeId)
    requires Valid(t) && n in t.parent && InTree(t, rng.start) && InTree(t, rng.end)
    ensures var nr := NodeRange(t, n);
      var s, e, ns, ne := Key(t, rng.start), Key(t, rng.end), Key(t, nr.start), Key(t, nr.end);
      ClassifyAsWritten(t, rng, n) ==
        if LexCmp(s, ns) <= 0 && LexCmp(e, ne) >= 0 then Contained
        else if LexCmp(e, ns) <= 0 || LexCmp(s, ns) >= 0 then Disjoint
        else Crossing
  {
  }

  /** The branch `checkNode` takes on a node the range contains (rte.js:194-224). */
  function ToggleNode(t: Tree, c: NodeId): (r: Tree)
    requires Valid(t) && c in t.parent
    ensures Valid(r) && RankOrderKept(t, r)
  {
    if ContainsRteSpanClass(t, c) then
      SetFontWeight(t, c, if t.nodes[c].fontWeight == "bold" then "normal" else "bold")
    else if IsBoldDecorativeTag(t, c) then
      ReplaceWithSpan(t, c, "normal")
    else if IsBold(t, c) then
      // isBold is false on a text node, so the text branch of rte.js:205-209 is dead.
      SetFontWeight(t, c, "normal")
    else if IsText(t, c) then
      WrapInSpan(t, c, {"rte_span"}, "bold")
    else
      SetFontWeight(t, c, "bold")
  }

  /** Toggling changes nothing outside the subtree at `c`'s place in its parent. */
  lemma ToggleWithin(t: Tree, c: NodeId)
    requires Valid(t) && c in t.parent
    ensures Within(t, ToggleNode(t, c), t.parent[c], Index(t, c), Index(t, c) + 1)
  {
    var r := ToggleNode(t, c);
    if ContainsRteSpanClass(t, c) || (!IsBoldDecorativeTag(t, c) && IsElement(t, c)) {
      var w := r.nodes[c].fontWeight;
      WeightOnly(t, c, r);
      FontWeightWithin(t, c, w, r);
    } else if IsBoldDecorativeTag(t, c) {
      ReplaceWithin(t, c, r);
    } else {
      WrapWithin(t, c, r);
    }
  }

  /** The branches that set the font weight leave the rest of the tree alone. */
  lemma WeightOnly(t: Tree, c: NodeId, r: Tree)
    requires Valid(t) && c in t.parent && r == ToggleNode(t, c)
    requires ContainsRteSpanClass(t, c) || (!IsBoldDecorativeTag(t, c) && IsElement(t, c))
    ensures IsElement(t, c) && c in r.nodes && r.nodes[c].Element?
    ensures r == t.(nodes := t.nodes[c := t.nodes[c].(fontWeight := r.nodes[c].fontWeight)])
    ensures r.nodes[c].fontWeight == if IsBold(t, c) then "normal" else "bold"
  {
  }

  /** An `rte_span`, or any other element but a STRONG or B, keeps everything but
      its font weight, and is bold afterwards exactly when it was not bold before. */
  lemma ToggleFlipsWeight(t: Tree, c: NodeId)
    requires Valid(t) && c in t.parent && IsElement(t, c)
    requires ContainsRteSpanClass(t, c) || !IsBoldDecorativeTag(t, c)
    ensures var r := ToggleNode(t, c);
      && c in r.nodes && r.nodes[c] == t.nodes[c].(fontWeight := r.nodes[c].fontWeight)
      && r.parent == t.parent && (IsBold(r, c) <==> !IsBold(t, c))
  {
    WeightOnly(t, c, ToggleNode(t, c));
  }

  /** A STRONG or B element without the `rte_span` class gives its place and its
      children to a new span of normal weight and is left detached and empty. */
  lemma ToggleReplacesTag(t: Tree, c: NodeId)
    requires Valid(t) && c in t.parent && !ContainsRteSpanClass(t, c) && IsBoldDecorativeTag(t, c)
    ensures var r, s := ToggleNode(t, c), t.next;
      && Children(r, t.parent[c]) == Children(t, t.parent[c])[Index(t, c) := s]
      && r.nodes[s] == Element("SPAN", {}, "normal", map[], Children(t, c))
      && !IsBold(r, s) && c !in r.parent && Children(r, c) == []
  {
  }

  /** A text node gives its place to a new bold `rte_span` holding only it. */
  lemma ToggleWrapsText(t: Tree, c: NodeId)
    requires Valid(t) && c in t.parent && IsText(t, c)
    ensures var r, s := ToggleNode(t, c), t.next;
      && Children(r, t.parent[c]) == Children(t, t.parent[c])[Index(t, c) := s]
      && r.nodes[s] == Element("SPAN", {"rte_span"}, "bold", map[], [c])
      && IsBold(r, s) && ContainsRteSpanClass(r, s)
      && r.parent[c] == s && r.nodes[c] == t.nodes[c]
      && s in r.parent && r.parent[s] == t.parent[c]
  {
  }

  /** Toggling an element that is toggled in place twice restores the tree when its
      weight was "bold" or "normal" (an unset weight comes back as "normal"). */
  lemma {:induction false} ToggleTwiceRestores(t: Tree, c: NodeId)
    requires Valid(t) && c in t.parent && IsElement(t, c)
    requires ContainsRteSpanClass(t, c) || !IsBoldDecorativeTag(t, c)
    requires t.nodes[c].fontWeight == "bold" || t.nodes[c].fontWeight == "normal"
    ensures var r := ToggleNode(t, c); c in r.parent && ToggleNode(r, c) == t
  {
    var r := ToggleNode(t, c);
    WeightOnly(t, c, r);
    var r2 := ToggleNode(r, c);
    WeightOnly(r, c, r2);
    WeightTwice(t, c, r.nodes[c].fontWeight, r2.nodes[c].fontWeight);
  }

  lemma WeightTwice(t: Tree, c: NodeId, w1: string, w2: string)
    requires c in t.nodes && t.nodes[c].Element? && w2 == t.nodes[c].fontWeight
    ensures var r := t.(nodes := t.nodes[c := t.nodes[c].(fontWeight := w1)]);
      r.(nodes := r.nodes[c := r.nodes[c].(fontWeight := w2)]) == t
  {
    var r := t.(nodes := t.nodes[c := t.nodes[c].(fontWeight := w1)]);
    assert r.nodes[c := r.nodes[c].(fontWeight := w2)] == t.nodes;
  }

  /** Toggling a text node and then the span that took its place leaves a normal
      `rte_span` holding the text where the text was. */
  lemma {:induction false} ToggleTextTwice(t: Tree, c: NodeId)
    requires Valid(t) && c in t.parent && IsText(t, c)
    ensures var r, s := ToggleNode(t, c), t.next;
      s in r.parent &&
      var r2 := ToggleNode(r, s);
      && Children(r2, t.parent[c]) == Children(t, t.parent[c])[Index(t, c) := s]
      && r2.nodes[s] == Element("SPAN", {"rte_span"}, "normal", map[], [c])
      && r2.parent[c] == s && r2.nodes[c] == t.nodes[c]
  {
    var r, s := ToggleNode(t, c), t.next;
    ToggleWrapsText(t, c);
    var r2 := ToggleNode(r, s);
    ToggleFlipsWeight(r, s);
    WeightOnly(r, s, r2);
    assert r2.nodes[s] == r.nodes[s].(fontWeight := "normal");
    assert t.parent[c] != s;
  }

  lemma FontWeightWithin(t: Tree, c: NodeId, w: string, r: Tree)
    requires Valid(t) && c in t.parent && IsElement(t, c)
    requires RankOrderKept(t, r) && r == t.(nodes := t.nodes[c := t.nodes[c].(fontWeight := w)])
    ensures Within(t, r, t.parent[c], Index(t, c), Index(t, c) + 1)
  {
    var p, k := t.parent[c], Index(t, c);
    assert t.rank[c] < t.rank[p];
    assert r.nodes[p] == t.nodes[p];
    RecordWithin(t, c, r);
  }

  lemma RecordWithin(t: Tree, c: NodeId, r: Tree)
    requires Valid(t) && c in t.parent && RankOrderKept(t, r) && r.nodes.Keys == t.nodes.Keys
    requires r.nodes[t.parent[c]] == t.nodes[t.parent[c]] && r.parent == t.parent
    requires forall m :: m in t.nodes && m != t.parent[c] && m != c ==> r.nodes[m] == t.nodes[m]
    ensures Within(t, r, t.parent[c], Index(t, c), Index(t, c) + 1)
  {
    var p, k := t.parent[c], Index(t, c);
    forall x | x in t.nodes && Outside(t, p, k, k + 1, x)
      ensures x in r.nodes && Parent(r, x) == Parent(t, x) && (x != p ==> r.nodes[x] == t.nodes[x])
    {
      OutsideSlot(t, c, x);
    }
    assert Children(r, p) == Children(t, p);
    WithinIntro(t, r, p, k, k + 1);
  }

  lemma ReplaceWithin(t: Tree, c: NodeId, r: Tree)
    requires Valid(t) && c in t.parent && IsElement(t, c)
    requires RankOrderKept(t, r) && r.nodes.Keys == t.nodes.Keys + {t.next}
    requires r.nodes[t.parent[c]] == t.nodes[t.parent[c]].(children := Children(t, t.parent[c])[Index(t, c) := t.next])
    requires r.parent == MovedParents(t, c, t.next)
    requires forall m :: m in t.nodes && m != t.parent[c] && m != c ==> r.nodes[m] == t.nodes[m]
    ensures Within(t, r, t.parent[c], Index(t, c), Index(t, c) + 1)
  {
    var p, k := t.parent[c], Index(t, c);
    assert t.rank[c] < t.rank[p];
    forall x | x in t.nodes && Outside(t, p, k, k + 1, x)
      ensures x in r.nodes && Parent(r, x) == Parent(t, x) && (x != p ==> r.nodes[x] == t.nodes[x])
    {
      OutsideSlot(t, c, x);
      MovedParentsAt(t, c, t.next, x);
    }
    assert Children(r, p) == Children(t, p)[k := t.next];
    WithinIntro(t, r, p, k, k + 1);
  }

  /** Moving the children of `c` to `s` leaves the parent of every other node as it was. */
  lemma MovedParentsAt(t: Tree, c: NodeId, s: NodeId, x: NodeId)
    requires c in t.parent && x != c && x != s && (x in t.parent ==> t.parent[x] != c)
    ensures x in MovedParents(t, c, s) <==> x in t.parent
    ensures x in t.parent ==> MovedParents(t, c, s)[x] == t.parent[x]
  {
  }

  lemma WrapWithin(t: Tree, c: NodeId, r: Tree)
    requires Valid(t) && c in t.parent
    requires RankOrderKept(t, r) && r.nodes.Keys == t.nodes.Keys + {t.next}
    requires r.nodes[t.parent[c]] == t.nodes[t.parent[c]].(children := Children(t, t.parent[c])[Index(t, c) := t.next])
    requires r.parent == t.parent[c := t.next][t.next := t.parent[c]]
    requires forall m :: m in t.nodes && m != t.parent[c] ==> r.nodes[m] == t.nodes[m]
    ensures Within(t, r, t.parent[c], Index(t, c), Index(t, c) + 1)
  {
    var p, k := t.parent[c], Index(t, c);
    assert t.rank[c] < t.rank[p];
    forall x | x in t.nodes && Outside(t, p, k, k + 1, x)
      ensures x in r.nodes && Parent(r, x) == Parent(t, x) && (x != p ==> r.nodes[x] == t.nodes[x])
    {
      OutsideSlot(t, c, x);
    }
    assert Children(r, p) == Children(t, p)[k := t.next];
    WithinIntro(t, r, p, k, k + 1);
  }

  /** What toggling the attached node `c` leaves at its place `s` in its parent: `c`
      with its weight flipped, a plain span holding the children of a `strong` or `b`,
      or a bold span holding the text node `c`. */
  ghost predicate ToggledAt(t: Tree, r: Tree, c: NodeId, s: NodeId)
    requires Valid(t) && Valid(r) && c in t.parent
  {
    && s in r.nodes
    && if ContainsRteSpanClass(t, c) || (IsElement(t, c) && !IsBoldDecorativeTag(t, c)) then
         && s == c
         && r.nodes[c] == t.nodes[c].(fontWeight := if IsBold(t, c) then "normal" else "bold")
         && BelowKept(t, r, c, c)
       else if IsBoldDecorativeTag(t, c) then
         && s !in t.nodes
         && r.nodes[s] == Element("SPAN", {}, "normal", map[], Children(t, c))
         && BelowKept(t, r, c, s)
       else
         && s !in t.nodes && c in r.nodes
         && r.nodes[s] == Element("SPAN", {"rte_span"}, "bold", map[], [c])
         && r.nodes[c] == t.nodes[c]
  }

  /** The contained-node branch (rte.js:194-224): whatever stands at the node's place
      afterwards is the toggled node, and the subtree below it is moved intact. */
  lemma ToggleVisited(t: Tree, c: NodeId)
    requires Valid(t) && c in t.parent
    ensures var r := ToggleNode(t, c);
      && IsElement(r, t.parent[c]) && Index(t, c) < |Children(r, t.parent[c])|
      && ToggledAt(t, r, c, Children(r, t.parent[c])[Index(t, c)])
  {
    var r := ToggleNode(t, c);
    var p, k := t.parent[c], Index(t, c);
    ToggleWithin(t, c);
    if ContainsRteSpanClass(t, c) || (IsElement(t, c) && !IsBoldDecorativeTag(t, c)) {
      WeightOnly(t, c, r);
      assert Children(r, p) == Children(t, p);
      forall x | x in t.nodes && x != c && c in Ancestors(t, x)
        ensures x in r.nodes && r.nodes[x] == t.nodes[x] && c in Ancestors(r, x)
      {
        forall y | y in t.nodes && c in Ancestors(t, y)
          ensures y in r.nodes && Children(r, y) == Children(t, y)
        {
        }
        UnderKept(t, r, c, x);
      }
    } else if IsBoldDecorativeTag(t, c) {
      NotAboveParent(t, c);
      forall x | x in t.nodes && x != c && c in Ancestors(t, x)
        ensures x in r.nodes && r.nodes[x] == t.nodes[x] && t.next in Ancestors(r, x)
      {
        assert x != p;
        UnderMoved(t, r, c, t.next, x);
      }
    }
  }

  /** After `c` hands its children to the span `s`, every node that was below `c` is
      below `s`. */
  lemma {:induction false} UnderMoved(t: Tree, r: Tree, c: NodeId, s: NodeId, x: NodeId)
    requires Valid(t) && Valid(r) && c in t.parent && s !in t.nodes && s in r.nodes
    requires t.nodes.Keys <= r.nodes.Keys && r.parent == MovedParents(t, c, s)
    requires x in t.nodes && x != c && c in Ancestors(t, x)
    ensures s in Ancestors(r, x)
    decreases Above(t, x)
  {
    BelowAttached(t, c, x);
    var y := t.parent[x];
    AncestorsStep(r, x);
    if y != c {
      AboveShrinks(t, x);
      UnderMoved(t, r, c, s, y);
    }
  }
}
