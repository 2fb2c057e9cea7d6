# Preview node: link-paragraph eligibility, commands and Markdown form

This project models the `preview` node extension of a Tiptap-based rich-text editor
(`src/nodes/Preview.js`). The extension turns a paragraph that holds a single link into a
"preview" node (an embedded link card) and back, and writes a preview node as Markdown.

What is modelled:

- the host's document structures the extension reads, as datatypes (`Host`): marks with an
  optional `href`, nodes with marks, children, attributes (possibly `null`) and text, the
  selection start (`$from`: its parent block and the node after it), and the editor state.
  `ValidSelection` states what every selection the host builds satisfies: an empty parent has
  no node after the cursor;
- `extractHref`, `childCount`, `previewPossible` and `previewAttributesFromSelection` as
  functions, with their exact branches (`Preview`);
- `setPreview` and `unsetPreview` as methods on a host `Editor` object. The host's
  `chain().setNode(...).run()` and `isNodeActive` are uninterpreted function values held by
  that object. `setNode` gives both the state the host leaves and the boolean `run()`
  returns, with nothing assumed between them: a run reporting false may still have changed
  the document. A ghost log of every node replacement issued lets the contracts say when the
  host is, and is not, asked to replace a node;
- `toMarkdown` as a method appending to the host serializer's output buffer through its
  `write` and `text` primitives. `text` is an uninterpreted function value. A reader for the
  written `[caption](href (title))` form shows which parts come back out.

Host functions that are handed in as parameters or constant fields rather than modelled:
`chain().setNode(type, attrs).run()`, `isNodeActive` together with `getNodeType`, and the
serializer's `state.text`. The host's `node.textContent` is modelled
(`Host.TextContent`): the text of all text leaves, in document order.

Points where the code's behaviour differs from its doc comments or from a first reading:

- The code's child-count test refuses only a parent with more than one child
  (`Preview.js:141`), so an empty parent passes it. In a selection the host builds, an empty
  parent has nothing after the cursor, and `extractHref` then throws (`Preview.js:144, 156`).
  So an empty parent never yields a preview, and for such selections a preview needs exactly
  one child, as the doc comment at `Preview.js:84` says (`PossiblePreviewHasOneChild`).
- `toMarkdown` calls `state.text(node.textContent, false)`. The `false` turns the host's
  Markdown escaping off, so the label is not escaped. The model passes that flag to the host
  primitive. `LinkMarkdownRoundTrip` needs a label without `]` for this reason.
- `extractHref` reads `node.marks` without a null check. A missing node after the cursor
  throws there. The model turns this into a requires clause. That clause applies only when
  `previewPossible` gets past its child-count test, because the code returns before that
  read otherwise.
- `!href` treats `undefined`, `null` and `""` as falsy. `Mark.href` is an `Option`, and `None`
  stands for both `undefined` and `null`.
- `href` and `title` are declared without defaults (`Preview.js:46-51`), so the host stores
  `null` for a missing one, and the template literal at `Preview.js:77` prints it as `null`
  (`NullTitleMarkdown`). A key that is absent altogether prints as `undefined`.

## Model

| member | source | states |
|---|---|---|
| Preview.FindLink | src/nodes/Preview.js:156 | the result is absent exactly when no mark is named `link`; otherwise it is the mark at the first position whose type name is `link` |
| Preview.ExtractHref | src/nodes/Preview.js:155-158 | the `href` of the first `link` mark of the node; absent when the node has no `link` mark |
| Preview.FindLinkIgnoresOtherMarks | src/nodes/Preview.js:156 | dropping every non-`link` mark from the list does not change the mark that is found |
| Preview.ExtractHrefIgnoresOtherMarks | src/nodes/Preview.js:155-158 | the extracted `href` depends only on the node's `link` marks; other marks never affect it |
| Preview.PreviewPossible | src/nodes/Preview.js:139-166 | with `childCount` (:164-166) read as the parent's number of children: false whenever the parent has more than one child, whatever the marks; with at most one child, true exactly when the node after the cursor has a first `link` mark whose `href` is present, non-empty and does not start with `#`; a node after the cursor is required only once the child-count test passes |
| Preview.EmptyParentThrows | src/nodes/Preview.js:139-145 | for a selection the host builds, an empty parent passes the child-count test but leaves no node after the cursor to read, so `previewPossible` throws there |
| Preview.PossiblePreviewHasOneChild | src/nodes/Preview.js:139-149 | for a selection the host builds, `previewPossible` holds only when the parent has exactly one child |
| Preview.NoLinkNoPreview | src/nodes/Preview.js:144-147 | a node after the cursor without any `link` mark makes a preview impossible |
| Preview.UnfitTargetNoPreview | src/nodes/Preview.js:145-147 | a first `link` mark whose `href` is missing, empty or starts with `#` makes a preview impossible |
| Preview.PreviewAttributesFromSelection | src/nodes/Preview.js:117-121 | the attributes always have title `preview`; their `href` is the first `link` mark's `href`, absent when there is no `link` mark |
| Preview.PossiblePreviewAttributes | src/nodes/Preview.js:139-149 | when `previewPossible` holds, the built attributes carry exactly the `href` it inspected, and that `href` is present, non-empty and not a fragment |
| Preview.SetPreview | src/nodes/Preview.js:88-93 | when `previewPossible` is false it returns false, asks the host for no replacement and leaves the state unchanged; otherwise it issues exactly one replacement by a `preview` node with the attributes above, and the state and result are what the host's run gives; a replacement is asked for only under a parent with at most one child, exactly one for a selection the host builds |
| Preview.UnsetPreview | src/nodes/Preview.js:100-106 | outside an active preview node it returns false, asks for no replacement and leaves the state unchanged; inside one it issues exactly one replacement by a `paragraph` without attributes, and the state and result are what the host's run gives |
| Host.Editor.RunSetNode | src/nodes/Preview.js:90-92 | `chain().setNode(type, attrs).run()`: logs the one replacement asked for; the new state is the one the host leaves and the result is what `run()` returns |
| PreviewMarkdown.MarkdownSerializer.Write | src/nodes/Preview.js:75 | `state.write` appends its argument to the output unchanged |
| PreviewMarkdown.MarkdownSerializer.Text | src/nodes/Preview.js:76 | `state.text` appends the host's rendering of the text for the given escape flag |
| PreviewMarkdown.ToMarkdown | src/nodes/Preview.js:74-78 | the output grows by `[`, then the host's unescaped rendering of the text content, then `](href (title))`, in that order; only the text content passes through the host primitive, and `href` and `title` are written raw, a `null` one as `null` and a missing one as `undefined` |
| PreviewMarkdown.LinkMarkdownRoundTrip | src/nodes/Preview.js:74-78 | the written form `[caption](href (title))` reads back to the same caption, `href` and title when the caption has no `]` and the `href` has no space |
| PreviewMarkdown.NodeMarkdownRecoversAttributes | src/nodes/Preview.js:74-78 | from the Markdown of a preview node, its stored `href` and `title` are recovered exactly, under the same conditions |
| PreviewMarkdown.NullTitleMarkdown | src/nodes/Preview.js:77 | a preview node whose `title` attribute is `null` is written with the title `null`, which reads back as such |
| PreviewMarkdown.ExampleMarkdown | src/nodes/Preview.js:74-78 | a node with `href` `https://example.com`, title `preview` and text `Example` is written as `[Example](https://example.com (preview))` |

## Left out

- `renderHTML`, `parseHTML` and `addAttributes` (Preview.js:46-68): they depend on the link helpers `domHref` and `parseHref` and on the host's HTML parse-rule engine. `src/helpers/links.js` is not part of this model. So the HTML round trip is not modelled.
- `addNodeView` (Preview.js:70-72): it binds a Vue component for rendering, which is UI.
- The schema and option declarations `name`, `group`, `content`, `defining`, `isEmbedded` and `relativePath` (Preview.js:31-44): they are static configuration read by the host. Only the name `preview` is used, as `Preview.PREVIEW`.
- `isPreview` (Preview.js:129-132): `getNodeType` and `isNodeActive` are host functions, so they are folded into the one uninterpreted predicate `Editor.isNodeActive`. The `this.attributes` value the code passes to it is part of that host predicate too.
- The `console.info` call in `unsetPreview` (Preview.js:101): it is logging output with no effect on the result.
- Preview.SetPreview: the host's node replacement is uninterpreted, so what the new document looks like is not stated, nor the round trip between a link paragraph and a preview node.
- Preview.UnsetPreview: the host's node replacement is uninterpreted, so the contract does not state that the result is a plain paragraph. "`unsetPreview` on a paragraph changes nothing" is stated only for a state where the host reports no active preview node; whether a paragraph is such a state is the host predicate's business.
- PreviewMarkdown.MarkdownSerializer.Write: the host's `write` also flushes pending closing markers and block delimiters first. The model writes its argument only.
- The exception thrown when `nodeAfter` is `null`: the model requires a node after the cursor where the code would read its marks, rather than modelling the thrown `TypeError`.
