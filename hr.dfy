/** The horizontal-rule command (`insertHRLogic`, rte.js:363-368): a new `hr`
    element, not editable and not reacting to the pointer, appended as the last
    child of the editor. */
module HorizontalRule {
  import opened Dom
  import opened Edit

  /** The attributes the command sets; `setAttribute` turns `false` into "false". */
  function HRAttributes(): map<string, string> {
    map["contenteditable" := "false", "style" := "pointer-events: none;"]
  }

  /** An `hr` element as the command creates it: no classes, no inline weight, no
      children. */
  predicate IsRule(t: Tree, n: NodeId) {
    n in t.nodes && t.nodes[n] == Element("HR", {}, "", HRAttributes(), [])
  }

  /** `insertHRLogic(doc, editor)`: the rule gets the next free id and becomes the
      editor's last child; every other node keeps its record and its parent. */
  function InsertHRLogic(t: Tree, editor: NodeId): (r: Tree)
    requires Valid(t) && IsElement(t, editor)
    ensures Valid(r) && r.next == t.next + 1 && t.next !in t.nodes
    ensures r.nodes.Keys == t.nodes.Keys + {t.next}
    ensures IsRule(r, t.next) && t.next in r.parent && r.parent[t.next] == editor
    ensures Children(r, editor) == Children(t, editor) + [t.next]
    ensures IsElement(r, editor) && r.nodes[editor].nodeName == t.nodes[editor].nodeName
    ensures r.nodes[editor].attributes == t.nodes[editor].attributes
    ensures forall m :: m in t.nodes && m != editor ==> r.nodes[m] == t.nodes[m]
    ensures forall m :: m in t.parent ==> m in r.parent && r.parent[m] == t.parent[m]
  {
    AppendElement(t, editor, "HR", HRAttributes())
  }

  /** Two clicks append two rules, in click order, after the editor's former
      children. */
  lemma InsertHRTwice(t: Tree, editor: NodeId)
    requires Valid(t) && IsElement(t, editor)
    ensures var r := InsertHRLogic(InsertHRLogic(t, editor), editor);
      && Children(r, editor) == Children(t, editor) + [t.next, t.next + 1]
      && IsRule(r, t.next) && IsRule(r, t.next + 1)
  {
    var u := InsertHRLogic(t, editor);
    assert Children(t, editor) + [t.next] + [u.next] == Children(t, editor) + [t.next, t.next + 1];
  }

  /** Inserting a rule adds no text: every node of the document, the editor and
      each of its ancestors included, keeps its text content. */
  lemma InsertHRKeepsText(t: Tree, editor: NodeId, n: NodeId)
    requires Valid(t) && IsElement(t, editor) && n in t.nodes
    ensures n in InsertHRLogic(t, editor).nodes
    ensures TextContent(InsertHRLogic(t, editor), n) == TextContent(t, n)
  {
    var r := InsertHRLogic(t, editor);
    assert TextContent(r, t.next) == "" by {
      assert r.nodes[t.next].children == [];
    }
    GrownKeepsText(t, r, editor, t.next, n);
  }

  /** `r` is `t` with one node `x` without text appended to the children of `e`. */
  ghost predicate Grown(t: Tree, r: Tree, e: NodeId, x: NodeId) {
    && Valid(t) && Valid(r) && IsElement(t, e) && IsElement(r, e)
    && x in r.nodes && TextContent(r, x) == ""
    && Children(r, e) == Children(t, e) + [x]
    && forall m :: m in t.nodes && m != e ==> m in r.nodes && r.nodes[m] == t.nodes[m]
  }

  lemma {:induction false} GrownKeepsText(t: Tree, r: Tree, e: NodeId, x: NodeId, n: NodeId)
    requires Grown(t, r, e, x) && n in t.nodes
    ensures n in r.nodes && TextContent(r, n) == TextContent(t, n)
    decreases t.rank[n], 1
  {
    if n == e {
      var cs := Children(t, n);
      GrownKeepsChildrenText(t, r, e, x, n, |cs|);
      assert ChildrenText(r, n, |cs| + 1) == ChildrenText(r, n, |cs|) + TextContent(r, x);
    } else if t.nodes[n].Element? {
      GrownKeepsChildrenText(t, r, e, x, n, |Children(t, n)|);
    }
  }

  /** The text of the first `k` children of a node of `t` is unchanged. */
  lemma {:induction false} GrownKeepsChildrenText(t: Tree, r: Tree, e: NodeId, x: NodeId, n: NodeId, k: nat)
    requires Grown(t, r, e, x) && n in t.nodes && k <= |Children(t, n)|
    ensures n in r.nodes && k <= |Children(r, n)| && ChildrenText(r, n, k) == ChildrenText(t, n, k)
    decreases t.rank[n], 0, k
  {
    if k > 0 {
      GrownKeepsChildrenText(t, r, e, x, n, k - 1);
      ChildOf(t, n, k - 1);
      assert Children(r, n)[k - 1] == Children(t, n)[k - 1];
      GrownKeepsText(t, r, e, x, Children(t, n)[k - 1]);
    }
  }
}
