/** The editor's state record (`class Rte`, rte.js:1-53): the host element the
    editor is mounted in and its size, fixed at construction, and the editor
    element, the iframe's document and the command bar, each unset (`null`) until
    its setter runs. */
module RteState {
  import opened Wrappers
  import opened Dom

  class Rte {
    var root: NodeId
    var width: int
    var height: int
    var editor: Option<NodeId>
    var contentDocument: Option<Tree>
    var commandArea: Option<NodeId>

    /** `new Rte(root, width, height)`. */
    constructor (root: NodeId, width: int, height: int)
      ensures GetRoot() == root && GetWidth() == width && GetHeight() == height
      ensures GetEditor().None? && GetContentDocument().None? && GetCommandArea().None?
    {
      this.root := root;
      this.width := width;
      this.height := height;
      editor := None;
      contentDocument := None;
      commandArea := None;
    }

    function GetRoot(): (r: NodeId)
      reads this
      ensures r == root
    {
      root
    }

    function GetWidth(): (r: int)
      reads this
      ensures r == width
    {
      width
    }

    function GetHeight(): (r: int)
      reads this
      ensures r == height
    {
      height
    }

    function GetEditor(): (r: Option<NodeId>)
      reads this
      ensures r == editor
    {
      editor
    }

    function GetContentDocument(): (r: Option<Tree>)
      reads this
      ensures r == contentDocument
    {
      contentDocument
    }

    function GetCommandArea(): (r: Option<NodeId>)
      reads this
      ensures r == commandArea
    {
      commandArea
    }

    /** The editor element is read back as set; nothing else changes. */
    method SetEditor(e: NodeId)
      modifies this
      ensures GetEditor() == Some(e)
      ensures GetRoot() == old(GetRoot()) && GetWidth() == old(GetWidth()) && GetHeight() == old(GetHeight())
      ensures GetContentDocument() == old(GetContentDocument()) && GetCommandArea() == old(GetCommandArea())
    {
      editor := Some(e);
    }

    /** The document is read back as set; nothing else changes. */
    method SetContentDocument(d: Tree)
      modifies this
      ensures GetContentDocument() == Some(d)
      ensures GetRoot() == old(GetRoot()) && GetWidth() == old(GetWidth()) && GetHeight() == old(GetHeight())
      ensures GetEditor() == old(GetEditor()) && GetCommandArea() == old(GetCommandArea())
    {
      contentDocument := Some(d);
    }

    /** The command bar is read back as set; nothing else changes. */
    method SetCommandArea(c: NodeId)
      modifies this
      ensures GetCommandArea() == Some(c)
      ensures GetRoot() == old(GetRoot()) && GetWidth() == old(GetWidth()) && GetHeight() == old(GetHeight())
      ensures GetEditor() == old(GetEditor()) && GetContentDocument() == old(GetContentDocument())
    {
      commandArea := Some(c);
    }
  }

  /** The setters compose: after the document, the editor and the command bar are
      set, in the order the editor's start-up sets them, each getter returns what
      was set and the construction arguments are still as given. */
  method Setup(root: NodeId, width: int, height: int, d: Tree, e: NodeId, c: NodeId) returns (rte: Rte)
    ensures fresh(rte)
    ensures rte.GetRoot() == root && rte.GetWidth() == width && rte.GetHeight() == height
    ensures rte.GetContentDocument() == Some(d) && rte.GetEditor() == Some(e)
    ensures rte.GetCommandArea() == Some(c)
  {
    rte := new Rte(root, width, height);
    rte.SetContentDocument(d);
    rte.SetEditor(e);
    rte.SetCommandArea(c);
  }
}
