/** The preview extension's selection logic and its two editing commands: when a paragraph
    holding a bare link may become a preview node, which attributes that node gets, and
    how `setPreview` and `unsetPreview` guard the host's node replacement. */
module Preview {
  import opened Wrappers
  import opened Host

  /** The node type this extension registers (`this.name`). */
  const PREVIEW := "preview"
  /** The name of the host's link mark. */
  const LINK := "link"
  /** The node type `unsetPreview` turns a preview back into. */
  const PARAGRAPH := "paragraph"

  /** `i` is the position of the first link mark in `marks`. */
  predicate IsFirstLink(marks: seq<Mark>, i: int) {
    0 <= i < |marks| && marks[i].typeName == LINK &&
    forall j :: 0 <= j < i ==> marks[j].typeName != LINK
  }

  /** `marks.find(mark => mark.type.name === 'link')`: the first link mark, if any. */
  function FindLink(marks: seq<Mark>): (r: Option<Mark>)
    ensures r.None? <==> forall i :: 0 <= i < |marks| ==> marks[i].typeName != LINK
    ensures r.Some? ==> exists i :: IsFirstLink(marks, i)
    ensures forall i :: IsFirstLink(marks, i) ==> r == Some(marks[i])
    decreases |marks|
  {
    if marks == [] then None
    else if marks[0].typeName == LINK then
      assert IsFirstLink(marks, 0);
      Some(marks[0])
    else
      var r := FindLink(marks[1..]);
      assert forall i :: IsFirstLink(marks[1..], i) ==> IsFirstLink(marks, i + 1);
      assert forall i :: IsFirstLink(marks, i) ==> i > 0 && IsFirstLink(marks[1..], i - 1);
      r
  }

  /** `extractHref(node)`: the `href` of the node's first link mark; absent when the node has
      no link mark or that mark carries no `href`. */
  function ExtractHref(node: Node): (href: Option<string>)
    ensures (forall i :: 0 <= i < |node.marks| ==> node.marks[i].typeName != LINK) ==> href == None
    ensures forall i :: IsFirstLink(node.marks, i) ==> href == node.marks[i].href
  {
    match FindLink(node.marks)
    case None => None
    case Some(link) => link.href
  }

  /** The link marks of `marks`, in their order. */
  function LinkMarks(marks: seq<Mark>): (r: seq<Mark>)
    ensures forall i :: 0 <= i < |r| ==> r[i].typeName == LINK
    ensures |r| <= |marks|
  {
    if marks == [] then []
    else if marks[0].typeName == LINK then [marks[0]] + LinkMarks(marks[1..])
    else LinkMarks(marks[1..])
  }

  /** Marks of any other type never change which link is found. */
  lemma {:induction false} FindLinkIgnoresOtherMarks(marks: seq<Mark>)
    ensures FindLink(LinkMarks(marks)) == FindLink(marks)
  {
    if marks != [] && marks[0].typeName != LINK {
      FindLinkIgnoresOtherMarks(marks[1..]);
    }
  }

  /** Hence `extractHref` depends on the link marks of the node alone. */
  lemma ExtractHrefIgnoresOtherMarks(node: Node)
    ensures ExtractHref(node.(marks := LinkMarks(node.marks))) == ExtractHref(node)
  {
    FindLinkIgnoresOtherMarks(node.marks);
  }

  predicate StartsWith(s: string, prefix: string) {
    |prefix| <= |s| && s[..|prefix|] == prefix
  }

  /** The test `!href || href.startsWith('#')` negated: a present, non-empty target that is
      not an in-page fragment. */
  predicate IsPreviewTarget(href: Option<string>) {
    href.Some? && href.value != "" && !StartsWith(href.value, "#")
  }

  /** `previewPossible` gets past its child-count test (`childCount`, the length of
      `node.content.content`) only for a parent with at most one child, and then reads
      `nodeAfter.marks` without a null check: this holds when that read does not throw. */
  predicate PreviewCheckDefined(sel: Selection) {
    |sel.parent.children| <= 1 ==> sel.nodeAfter.Some?
  }

  /** `previewPossible(state)`: refuses a parent with more than one child, then asks for a
      usable link target on the node after the cursor. */
  function PreviewPossible(sel: Selection): (r: bool)
    requires PreviewCheckDefined(sel)
    ensures |sel.parent.children| > 1 ==> !r
    ensures |sel.parent.children| <= 1 ==>
      (r <==> exists i :: IsFirstLink(sel.nodeAfter.value.marks, i) &&
                          IsPreviewTarget(sel.nodeAfter.value.marks[i].href))
  {
    if |sel.parent.children| > 1 then false
    else IsPreviewTarget(ExtractHref(sel.nodeAfter.value))
  }

  /** The code's test is "at most one child"; in a selection the host builds, an empty parent
      has no node after the cursor, so `previewPossible` throws there instead of answering. */
  lemma EmptyParentThrows(sel: Selection)
    requires ValidSelection(sel) && |sel.parent.children| == 0
    ensures !PreviewCheckDefined(sel)
  {
  }

  /** Hence, for such selections, a preview is possible only in a parent with exactly one
      child, as the doc comment of `setPreview` says. */
  lemma PossiblePreviewHasOneChild(sel: Selection)
    requires ValidSelection(sel) && PreviewCheckDefined(sel) && PreviewPossible(sel)
    ensures |sel.parent.children| == 1
  {
  }

  /** A node after the cursor without any link mark never becomes a preview. */
  lemma NoLinkNoPreview(sel: Selection)
    requires sel.nodeAfter.Some?
    requires forall i :: 0 <= i < |sel.nodeAfter.value.marks| ==>
                         sel.nodeAfter.value.marks[i].typeName != LINK
    ensures !PreviewPossible(sel)
  {
  }

  /** Nor does one whose first link mark has no target, an empty one, or a fragment. */
  lemma UnfitTargetNoPreview(sel: Selection, i: nat)
    requires sel.nodeAfter.Some? && IsFirstLink(sel.nodeAfter.value.marks, i)
    requires sel.nodeAfter.value.marks[i].href == None ||
             sel.nodeAfter.value.marks[i].href == Some("") ||
             (sel.nodeAfter.value.marks[i].href.Some? &&
              StartsWith(sel.nodeAfter.value.marks[i].href.value, "#"))
    ensures !PreviewPossible(sel)
  {
  }

  /** `previewAttributesFromSelection(state)`: `{ href, title: 'preview' }` for the node
      after the cursor. */
  function PreviewAttributesFromSelection(sel: Selection): (a: Attributes)
    requires sel.nodeAfter.Some?
    ensures a.LinkAttributes? && a.title == PREVIEW
    ensures forall i :: IsFirstLink(sel.nodeAfter.value.marks, i) ==>
                        a.href == sel.nodeAfter.value.marks[i].href
    ensures (forall i :: 0 <= i < |sel.nodeAfter.value.marks| ==>
                         sel.nodeAfter.value.marks[i].typeName != LINK) ==> a.href == None
  {
    LinkAttributes(ExtractHref(sel.nodeAfter.value), PREVIEW)
  }

  /** The attributes `setPreview` builds carry exactly the target `previewPossible`
      approved: present, non-empty, not a fragment, taken from the first link mark. */
  lemma PossiblePreviewAttributes(sel: Selection)
    requires PreviewCheckDefined(sel)
    requires PreviewPossible(sel)
    ensures sel.nodeAfter.Some?
    ensures IsPreviewTarget(PreviewAttributesFromSelection(sel).href)
    ensures PreviewAttributesFromSelection(sel).href == ExtractHref(sel.nodeAfter.value)
  {
  }

  /** `setPreview`: `previewPossible(state) && chain().setNode('preview', attrs).run()`.
      When the selection does not qualify, nothing is asked of the host and false is
      returned; otherwise one replacement by a preview node with the attributes above is
      issued, and the host's state and `run()` result after it are the command's. */
  method SetPreview(ed: Editor) returns (applied: bool)
    requires PreviewCheckDefined(ed.state.selection)
    modifies ed
    ensures !PreviewPossible(old(ed.state.selection)) ==>
      !applied && ed.state == old(ed.state) && ed.replacements == old(ed.replacements)
    ensures PreviewPossible(old(ed.state.selection)) ==>
      var attrs := PreviewAttributesFromSelection(old(ed.state.selection));
      ed.replacements == old(ed.replacements) + [Replacement(PREVIEW, attrs)] &&
      ed.state == ed.setNode(old(ed.state), PREVIEW, attrs).0 &&
      applied == ed.setNode(old(ed.state), PREVIEW, attrs).1
    ensures ed.replacements != old(ed.replacements) ==>
      |old(ed.state.selection).parent.children| <= 1 &&
      (ValidSelection(old(ed.state.selection)) ==> |old(ed.state.selection).parent.children| == 1)
  {
    if PreviewPossible(ed.state.selection) {
      applied := ed.RunSetNode(PREVIEW, PreviewAttributesFromSelection(ed.state.selection));
    } else {
      applied := false;
    }
  }

  /** `unsetPreview`: `isPreview(...) && chain().setNode('paragraph').run()`. Outside an
      active preview node nothing is asked of the host and false is returned; inside one, a
      replacement by a paragraph without attributes is issued, and the host's state and
      `run()` result after it are the command's. */
  method UnsetPreview(ed: Editor) returns (applied: bool)
    modifies ed
    ensures !ed.isNodeActive(old(ed.state), PREVIEW) ==>
      !applied && ed.state == old(ed.state) && ed.replacements == old(ed.replacements)
    ensures ed.isNodeActive(old(ed.state), PREVIEW) ==>
      ed.replacements == old(ed.replacements) + [Replacement(PARAGRAPH, NoAttributes)] &&
      ed.state == ed.setNode(old(ed.state), PARAGRAPH, NoAttributes).0 &&
      applied == ed.setNode(old(ed.state), PARAGRAPH, NoAttributes).1
  {
    if ed.isNodeActive(ed.state, PREVIEW) {
      applied := ed.RunSetNode(PARAGRAPH, NoAttributes);
    } else {
      applied := false;
    }
  }
}
