/** The parts of the editor host (a ProseMirror document under Tiptap) that the preview
    extension reads or drives. Only their shape is modelled; everything the host computes
    is an uninterpreted function handed in from outside. */
module Host {
  import opened Wrappers

  /** The type name of the text leaves of a document. */
  const TEXT := "text"

  /** An inline mark. `href` is the mark's `attrs.href`: `None` stands for both `undefined`
      (a mark without that attribute) and `null` (the link mark's default). */
  datatype Mark = Mark(typeName: string, href: Option<string>)

  /** A document node. `attrs` holds its attributes: a key that is absent reads `undefined`,
      and `None` is an attribute whose value is `null` (the host's value for a declared
      attribute without a default). `children` is its content (`node.content.content`), and
      `text` the characters of a text leaf. */
  datatype Node = Node(
    typeName: string,
    attrs: map<string, Option<string>>,
    marks: seq<Mark>,
    children: seq<Node>,
    text: string)

  /** The resolved start `$from` of the editor selection: the block that contains it and the
      node right after it, which the host reports as `null` at the end of a block. */
  datatype Selection = Selection(parent: Node, nodeAfter: Option<Node>)

  /** What every selection the host builds satisfies: the node after the cursor is one of the
      parent's children (or the rest of one), so an empty parent has nothing after the cursor. */
  predicate ValidSelection(sel: Selection) {
    sel.nodeAfter.Some? ==> |sel.parent.children| >= 1
  }

  datatype EditorState = EditorState(doc: Node, selection: Selection)

  /** The attribute object handed to the host's `setNode`: none at all, or the object
      `{ href, title }` built for a preview node (`href` may be `undefined`). */
  datatype Attributes = NoAttributes | LinkAttributes(href: Option<string>, title: string)

  /** One node replacement issued through the command chain. */
  datatype Replacement = Replacement(typeName: string, attrs: Attributes)

  /** The host's `node.textContent`: the text of all text leaves below `n`, in order. */
  function TextContent(n: Node): (r: string)
    decreases n, 1
  {
    if n.typeName == TEXT then n.text else ChildrenText(n.children)
  }

  function ChildrenText(cs: seq<Node>): (r: string)
    decreases cs, 0
  {
    if cs == [] then "" else TextContent(cs[0]) + ChildrenText(cs[1..])
  }

  /** The editor the commands run in. `setNode` is the host's
      `chain().setNode(type, attrs).run()` seen as a state transformer: it gives the state the
      host leaves behind and the boolean `run()` returns. Nothing ties the two together: a run
      that reports false may still have changed the document.
      `isNodeActive` is the host's "is a node of this type active at the selection" test. */
  class Editor {
    var state: EditorState
    /** Every node replacement the commands have asked the host for, in order. */
    ghost var replacements: seq<Replacement>
    const setNode: (EditorState, string, Attributes) -> (EditorState, bool)
    const isNodeActive: (EditorState, string) -> bool

    constructor (
      state: EditorState,
      setNode: (EditorState, string, Attributes) -> (EditorState, bool),
      isNodeActive: (EditorState, string) -> bool)
      ensures this.state == state && this.setNode == setNode && this.isNodeActive == isNodeActive
      ensures replacements == []
    {
      this.state := state;
      this.setNode := setNode;
      this.isNodeActive := isNodeActive;
      replacements := [];
    }

    /** `chain().setNode(typeName, attrs).run()`: asks the host for the replacement, takes
        the state it leaves and reports what `run()` returned. */
    method RunSetNode(typeName: string, attrs: Attributes) returns (ok: bool)
      modifies this`state, this`replacements
      ensures replacements == old(replacements) + [Replacement(typeName, attrs)]
      ensures state == setNode(old(state), typeName, attrs).0
      ensures ok == setNode(old(state), typeName, attrs).1
    {
      var next := setNode(state, typeName, attrs);
      replacements := replacements + [Replacement(typeName, attrs)];
      state, ok := next.0, next.1;
    }
  }
}
