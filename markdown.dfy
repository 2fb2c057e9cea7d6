/** The Markdown form of a preview node, `[caption](href (title))`, written through the host
    serializer, and a reader for that form that shows which parts can be recovered. */
module PreviewMarkdown {
  import opened Wrappers
  import opened Host

  /** The host's Markdown serializer state. `out` is the Markdown written so far;
      `textOutput(text, escape)` is what the host's `state.text` primitive appends for
      `text` (its escaping and its line handling belong to the host). */
  class MarkdownSerializer {
    var out: string
    const textOutput: (string, bool) -> string

    constructor (textOutput: (string, bool) -> string)
      ensures out == "" && this.textOutput == textOutput
    {
      out := "";
      this.textOutput := textOutput;
    }

    /** `state.write(content)`: appends `content` unchanged. */
    method Write(content: string)
      modifies this`out
      ensures out == old(out) + content
    {
      out := out + content;
    }

    /** `state.text(text, escape)`: appends what the host makes of `text`. */
    method Text(text: string, escape: bool)
      modifies this`out
      ensures out == old(out) + textOutput(text, escape)
    {
      out := out + textOutput(text, escape);
    }
  }

  /** An attribute as a template literal prints it: a missing one reads `undefined`, a
      `null` one reads `null`. */
  function AttrText(attrs: map<string, Option<string>>, key: string): string {
    if key !in attrs then "undefined"
    else match attrs[key]
      case None => "null"
      case Some(v) => v
  }

  /** The Markdown link with a title annotation: `[caption](href (title))`. */
  function LinkMarkdown(caption: string, href: string, title: string): string {
    "[" + caption + "](" + href + " (" + title + "))"
  }

  /** What `toMarkdown` appends for `node`: only the text content goes through the host's
      text primitive, and with escaping switched off; `href` and `title` are written raw. */
  function NodeMarkdown(node: Node, textOutput: (string, bool) -> string): string {
    LinkMarkdown(textOutput(TextContent(node), false),
                 AttrText(node.attrs, "href"), AttrText(node.attrs, "title"))
  }

  /** `toMarkdown(state, node)`: three successive writes to the serializer. */
  method ToMarkdown(st: MarkdownSerializer, node: Node)
    modifies st
    ensures st.out == old(st.out) + NodeMarkdown(node, st.textOutput)
  {
    st.Write("[");
    st.Text(TextContent(node), false);
    st.Write("](" + AttrText(node.attrs, "href") + " (" + AttrText(node.attrs, "title") + "))");
  }

  /** The position of the first `c` in `s`. */
  function IndexOf(s: string, c: char): (r: Option<nat>)
    ensures r.None? <==> c !in s
    ensures r.Some? ==> r.value < |s| && s[r.value] == c && c !in s[..r.value]
  {
    if s == [] then None
    else if s[0] == c then Some(0)
    else
      match IndexOf(s[1..], c)
      case None => None
      case Some(k) =>
        assert s[..k + 1] == [s[0]] + s[1..][..k];
        Some(k + 1)
  }

  /** The first `c` of `a + [c] + b` is at `|a|` when `a` holds no `c`. */
  lemma IndexOfAfterPrefix(a: string, c: char, b: string)
    requires c !in a
    ensures IndexOf(a + [c] + b, c) == Some(|a|)
  {
    var s := a + [c] + b;
    assert s[|a|] == c;
    assert s[..|a|] == a;
  }

  /** Reads `href (title` into the target, up to the first space, and the title. */
  function ParseDestination(rest: string): Option<(string, string)> {
    match IndexOf(rest, ' ')
    case None => None
    case Some(j) =>
      if j + 1 >= |rest| || rest[j + 1] != '(' then None
      else Some((rest[..j], rest[j + 2..]))
  }

  /** Reads `[caption](href (title))` back into its three parts, taking the caption up to the
      first `]` and the target up to the first space. */
  function ParseLinkMarkdown(md: string): Option<(string, string, string)> {
    if |md| < 3 || md[0] != '[' || md[|md| - 2..] != "))" then None
    else
      var inner := md[1..|md| - 2];
      match IndexOf(inner, ']')
      case None => None
      case Some(i) =>
        if i + 1 >= |inner| || inner[i + 1] != '(' then None
        else
          match ParseDestination(inner[i + 2..])
          case None => None
          case Some(d) => Some((inner[..i], d.0, d.1))
  }

  lemma DestinationRoundTrip(href: string, title: string)
    requires ' ' !in href
    ensures ParseDestination(href + " (" + title) == Some((href, title))
  {
    var rest := href + " (" + title;
    IndexOfAfterPrefix(href, ' ', "(" + title);
    assert href + [' '] + ("(" + title) == rest;
    assert rest[..|href|] == href;
    assert rest[|href| + 2..] == title;
  }

  /** The written form is unambiguous as long as the caption holds no `]` and the target no
      space: reading it back gives the caption, target and title that were written. */
  lemma LinkMarkdownRoundTrip(caption: string, href: string, title: string)
    requires ']' !in caption && ' ' !in href
    ensures ParseLinkMarkdown(LinkMarkdown(caption, href, title)) == Some((caption, href, title))
  {
    var md := LinkMarkdown(caption, href, title);
    var rest := href + " (" + title;
    var inner := caption + "](" + rest;
    assert md == "[" + inner + "))";
    assert md[1..|md| - 2] == inner;
    assert md[|md| - 2..] == "))";
    IndexOfAfterPrefix(caption, ']', "(" + rest);
    assert caption + [']'] + ("(" + rest) == inner;
    assert inner[|caption| + 2..] == rest;
    assert inner[..|caption|] == caption;
    DestinationRoundTrip(href, title);
  }

  /** For a preview node: when the host's rendering of the label holds no `]` and the target
      no space, the target and title are recovered from its Markdown exactly as stored. */
  lemma NodeMarkdownRecoversAttributes(node: Node, textOutput: (string, bool) -> string)
    requires "href" in node.attrs && node.attrs["href"].Some?
    requires "title" in node.attrs && node.attrs["title"].Some?
    requires ']' !in textOutput(TextContent(node), false) && ' ' !in node.attrs["href"].value
    ensures ParseLinkMarkdown(NodeMarkdown(node, textOutput)) ==
            Some((textOutput(TextContent(node), false),
                  node.attrs["href"].value, node.attrs["title"].value))
  {
    LinkMarkdownRoundTrip(textOutput(TextContent(node), false),
                          node.attrs["href"].value, node.attrs["title"].value);
  }

  /** A preview node whose `title` is `null`, as the host leaves an attribute without a
      default, is written with the word `null` as its title. */
  lemma NullTitleMarkdown(node: Node, textOutput: (string, bool) -> string)
    requires "href" in node.attrs && node.attrs["href"].Some? && ' ' !in node.attrs["href"].value
    requires "title" in node.attrs && node.attrs["title"] == None
    requires ']' !in textOutput(TextContent(node), false)
    ensures ParseLinkMarkdown(NodeMarkdown(node, textOutput)) ==
            Some((textOutput(TextContent(node), false), node.attrs["href"].value, "null"))
  {
    LinkMarkdownRoundTrip(textOutput(TextContent(node), false), node.attrs["href"].value, "null");
  }

  /** The node `<a title="preview" href="https://example.com">Example</a>` is written as
      `[Example](https://example.com (preview))` by any text primitive that leaves `Example`
      as it is. */
  lemma ExampleMarkdown(textOutput: (string, bool) -> string)
    requires textOutput("Example", false) == "Example"
    ensures NodeMarkdown(
              Node("preview", map["href" := Some("https://example.com"), "title" := Some("preview")], [],
                   [Node(TEXT, map[], [], [], "Example")], ""),
              textOutput)
            == "[Example](https://example.com (preview))"
  {
    var leaf := Node(TEXT, map[], [], [], "Example");
    var node := Node("preview", map["href" := Some("https://example.com"), "title" := Some("preview")], [],
                     [leaf], "");
    assert node.typeName != TEXT by {
      assert node.typeName[0] != TEXT[0];
    }
    assert [leaf][1..] == [];
    assert ChildrenText([leaf]) == "Example";
    assert TextContent(node) == "Example";
    assert "title" != "href" by {
      assert "title"[0] != "href"[0];
    }
    assert node.attrs["href"] == Some("https://example.com");
    assert node.attrs["title"] == Some("preview");
    assert AttrText(node.attrs, "href") == "https://example.com";
    assert AttrText(node.attrs, "title") == "preview";
    assert NodeMarkdown(node, textOutput) ==
           LinkMarkdown("Example", "https://example.com", "preview");
    assert "[" + "Example" + "](" == "[Example](";
    assert "https://example.com" + " (" == "https://example.com (";
    assert "https://example.com (" + "preview" + "))" == "https://example.com (preview))";
    assert "[Example](" + "https://example.com (preview))" ==
           "[Example](https://example.com (preview))";
  }
}
